/** The code of a quantifier explores the repetitions of its atom. */
module RegexQuant {
  import opened RegexSyntax
  import opened RegexSemantics
  import opened RegexVm
  import opened RegexExplore
  import opened RegexSteps
  import opened RegexAtoms
  import opened RegexLoops
  import opened RegexGreedy
  import opened Subject

  // ----- required iterations first, optional ones after -----

  lemma {:induction false} BindConcat(a: seq<nat>, b: seq<nat>, f: Explorer)
    ensures Bind(a + b, f) == Bind(a, f) + Bind(b, f)
  {
    if a == [] {
      assert a + b == b;
    } else {
      assert (a + b)[1..] == a[1..] + b;
      BindConcat(a[1..], b, f);
    }
  }

  lemma {:induction false} BindAssociative(qs: seq<nat>, f: Explorer, g: Explorer, h: Explorer)
    requires forall q: nat {:trigger h(q)} :: h(q) == Bind(f(q), g)
    ensures Bind(Bind(qs, f), g) == Bind(qs, h)
  {
    if qs != [] {
      BindConcat(f(qs[0]), Bind(qs[1..], f), g);
      BindAssociative(qs[1..], f, g, h);
    }
  }

  function RepeatOf(atom: Explorer, backward: bool, t: Subject, min: nat, max: nat, greedy: bool): (r: Explorer) {
    p => Repeat(atom, backward, t, min, max, greedy, p)
  }

  lemma NothingRequired(atom: Explorer, backward: bool, t: Subject, min: nat, max: nat, greedy: bool, p: nat)
    requires min <= max <= INFINITY && (!Boundary(t, p) || min == 0)
    ensures Repeat(atom, backward, t, min, max, greedy, p)
            == Bind(Power(atom, t, min, p), RepeatOf(atom, backward, t, 0, Less(max, min), greedy))
  {
    var g := RepeatOf(atom, backward, t, 0, Less(max, min), greedy);
    if !Boundary(t, p) {
      assert Bind([], g) == [];
    } else {
      BindOne(p, g);
    }
  }

  /** A repetition is its required iterations followed by its optional ones. */
  lemma {:induction false} RepeatSplits(atom: Explorer, backward: bool, t: Subject, min: nat, max: nat, greedy: bool,
                                        p: nat)
    requires min <= max <= INFINITY
    ensures Repeat(atom, backward, t, min, max, greedy, p)
            == Bind(Power(atom, t, min, p), RepeatOf(atom, backward, t, 0, Less(max, min), greedy))
    decreases min
  {
    var g := RepeatOf(atom, backward, t, 0, Less(max, min), greedy);
    if !Boundary(t, p) || min == 0 {
      NothingRequired(atom, backward, t, min, max, greedy, p);
    } else {
      hide Repeat, Power, Bind;
      var h := AfterRequired(atom, backward, t, min, max, greedy);
      var f := PowerOf(atom, t, min - 1);
      forall q: nat ensures h(q) == Bind(f(q), g) {
        assert Less(Decrement(max), min - 1) == Less(max, min);
        RepeatSplits(atom, backward, t, min - 1, Decrement(max), greedy, q);
      }
      RequiredUnfolds(atom, backward, t, min, max, greedy, p);
      BindAssociative(atom(p), f, g, h);
    }
  }

  lemma RequiredUnfolds(atom: Explorer, backward: bool, t: Subject, min: nat, max: nat, greedy: bool, p: nat)
    requires Boundary(t, p) && 0 < min <= max
    ensures Repeat(atom, backward, t, min, max, greedy, p)
      == Bind(atom(p), AfterRequired(atom, backward, t, min, max, greedy))
    ensures Power(atom, t, min, p) == Bind(atom(p), PowerOf(atom, t, min - 1))
  {
  }

  // ----- the pieces of the code -----

  /** Wherever the code of the atom lies, running it explores the atom. */
  ghost predicate RunsAnywhere(prog: Program, atom: Explorer, code: seq<Instr>, capture: Captures) {
    forall pc, to :: CodeAt(prog, pc, code) && to == pc + |code| ==> RunsAtom(prog, atom, pc, to, capture)
  }

  /** The atom never stays where it is unless its code is checked for that. */
  ghost predicate ChecksAdvance(t: Subject, atom: Explorer, code: seq<Instr>) {
    !NeedCheckAdvance(code) ==> forall p: nat :: Boundary(t, p) ==> p !in atom(p)
  }

  lemma BodyRuns(prog: Program, atom: Explorer, backward: bool, code: seq<Instr>, pc: int, to: int, capture: Captures)
    requires Directed(prog.subject, backward, atom) && ChecksAdvance(prog.subject, atom, code)
    requires RunsAnywhere(prog, atom, code, capture)
    requires CodeAt(prog, pc, LoopBody(code)) && to == pc + |LoopBody(code)|
    ensures RunsBody(prog, atom, pc, to, capture)
  {
    if NeedCheckAdvance(code) {
      CodeAtFramed(prog, pc, IPushCharPos, code, ICheckAdvance);
      RunsCheckedBody(prog, atom, backward, pc, pc + 1, pc + 1 + |code|, to, capture);
    } else {
      RunsUncheckedBody(prog, atom, pc, to, capture);
    }
  }

  lemma EndlessRuns(prog: Program, atom: Explorer, backward: bool, code: seq<Instr>, greedy: bool,
                    pc: int, end: int, capture: Captures)
    requires Directed(prog.subject, backward, atom) && ChecksAdvance(prog.subject, atom, code)
    requires RunsAnywhere(prog, atom, code, capture)
    requires CodeAt(prog, pc, OptionalCode(code, INFINITY, greedy))
      && end == pc + |OptionalCode(code, INFINITY, greedy)|
    ensures RunsAtom(prog, RepeatOf(atom, backward, prog.subject, 0, INFINITY, greedy), pc, end, capture)
  {
    var body := LoopBody(code);
    var mid := pc + 1 + |body|;
    CodeAtFramed(prog, pc, Split(greedy, |body| + 1), body, IGoto(-(|body| + 2)));
    BodyRuns(prog, atom, backward, code, pc + 1, mid, capture);
    forall p: nat, stack, base | Boundary(prog.subject, p)
      ensures Explores(prog, At(pc, p, stack, capture, base),
                       Repeat(atom, backward, prog.subject, 0, INFINITY, greedy, p), end, stack, capture, base)
    {
      EndlessLoop(prog, atom, backward, greedy, pc, pc + 1, mid, end, p, stack, capture, base);
    }
  }

  /** Code framed by two instructions on either side. */
  lemma CountedLayout(prog: Program, pc: int, i: Instr, j: Instr, code: seq<Instr>, k: Instr, l: Instr)
    requires CodeAt(prog, pc, [i, j] + code + [k, l])
    ensures Holds(prog, pc, i) && Holds(prog, pc + 1, j) && CodeAt(prog, pc + 2, code)
    ensures Holds(prog, pc + 2 + |code|, k) && Holds(prog, pc + 3 + |code|, l)
  {
    CodeAtConcat(prog, pc, [i, j] + code, [k, l]);
    CodeAtConcat(prog, pc, [i, j], code);
    assert Holds(prog, pc + 0, [i, j][0]) && Holds(prog, pc + 1, [i, j][1]);
    assert Holds(prog, pc + (2 + |code|) + 0, [k, l][0]) && Holds(prog, pc + (2 + |code|) + 1, [k, l][1]);
  }

  lemma CountedRuns(prog: Program, atom: Explorer, backward: bool, code: seq<Instr>, max: nat, greedy: bool,
                    pc: int, end: int, capture: Captures)
    requires Directed(prog.subject, backward, atom) && ChecksAdvance(prog.subject, atom, code)
    requires RunsAnywhere(prog, atom, code, capture) && 0 < max < INFINITY
    requires CodeAt(prog, pc, OptionalCode(code, max, greedy)) && end == pc + |OptionalCode(code, max, greedy)|
    ensures RunsAtom(prog, RepeatOf(atom, backward, prog.subject, 0, max, greedy), pc, end, capture)
  {
    hide Explores, Repeat, Directed, ChecksAdvance, RunsAnywhere;
    var body := LoopBody(code);
    var mid := pc + 2 + |body|;
    CountedLayout(prog, pc, IPushI32(max), Split(greedy, |body| + 1), body, ILoop(-(|body| + 2)), IDrop);
    BodyRuns(prog, atom, backward, code, pc + 2, mid, capture);
    forall p: nat, stack, base | Boundary(prog.subject, p)
      ensures Explores(prog, At(pc, p, stack, capture, base),
                       Repeat(atom, backward, prog.subject, 0, max, greedy, p), end, stack, capture, base)
    {
      CountedLoop(prog, atom, backward, greedy, pc + 1, pc + 2, mid, mid + 1, end, max, p, stack, capture, base);
      ExploresFromPush(prog, pc, pc + 1, max, p, Repeat(atom, backward, prog.subject, 0, max, greedy, p),
                       stack, end, capture, base);
    }
  }

  lemma ExploresFromPush(prog: Program, pc: int, next: int, value: nat, p: nat, qs: seq<nat>,
                         stack: seq<nat>, end: int, capture: Captures, base: SavedStack)
    requires Holds(prog, pc, IPushI32(value)) && next == pc + 1 && p <= |prog.subject.units|
    requires Explores(prog, At(next, p, stack + [value], capture, base), qs, end, stack, capture, base)
    ensures Explores(prog, At(pc, p, stack, capture, base), qs, end, stack, capture, base)
  {
    StepPushI32(prog, pc, next, value, p, stack, capture, base);
    ExploresAfter(prog, At(pc, p, stack, capture, base), At(next, p, stack + [value], capture, base), qs,
                  end, stack, capture, base);
  }

  /** Any number of optional iterations. */
  lemma OptionalRuns(prog: Program, atom: Explorer, backward: bool, code: seq<Instr>, max: nat, greedy: bool,
                     pc: int, end: int, capture: Captures)
    requires Directed(prog.subject, backward, atom) && ChecksAdvance(prog.subject, atom, code)
    requires RunsAnywhere(prog, atom, code, capture) && 0 < max <= INFINITY
    requires CodeAt(prog, pc, OptionalCode(code, max, greedy)) && end == pc + |OptionalCode(code, max, greedy)|
    ensures RunsAtom(prog, RepeatOf(atom, backward, prog.subject, 0, max, greedy), pc, end, capture)
  {
    if max == INFINITY {
      EndlessRuns(prog, atom, backward, code, greedy, pc, end, capture);
    } else {
      CountedRuns(prog, atom, backward, code, max, greedy, pc, end, capture);
    }
  }

  lemma OnceRuns(prog: Program, atom: Explorer, backward: bool, code: seq<Instr>, greedy: bool,
                 pc: int, end: int, capture: Captures)
    requires Directed(prog.subject, backward, atom) && ChecksAdvance(prog.subject, atom, code)
    requires RunsAnywhere(prog, atom, code, capture)
    requires CodeAt(prog, pc, [Split(greedy, |LoopBody(code)|)] + LoopBody(code)) && end == pc + 1 + |LoopBody(code)|
    ensures RunsAtom(prog, RepeatOf(atom, backward, prog.subject, 0, 1, greedy), pc, end, capture)
  {
    var body := LoopBody(code);
    CodeAtConcat(prog, pc, [Split(greedy, |body|)], body);
    assert Holds(prog, pc + 0, [Split(greedy, |body|)][0]);
    BodyRuns(prog, atom, backward, code, pc + 1, end, capture);
    forall p: nat, stack, base | Boundary(prog.subject, p)
      ensures Explores(prog, At(pc, p, stack, capture, base),
                       Repeat(atom, backward, prog.subject, 0, 1, greedy, p), end, stack, capture, base)
    {
      OptionalBody(prog, atom, backward, greedy, pc, pc + 1, end, p, stack, capture, base);
    }
  }

  lemma RequiredRuns(prog: Program, atom: Explorer, backward: bool, code: seq<Instr>, min: nat,
                     pc: int, end: int, capture: Captures)
    requires Directed(prog.subject, backward, atom) && RunsAnywhere(prog, atom, code, capture) && 0 < min
    requires CodeAt(prog, pc, RequiredCode(code, min)) && end == pc + |RequiredCode(code, min)|
    ensures RunsAtom(prog, PowerOf(atom, prog.subject, min), pc, end, capture)
  {
    if min == 1 {
      forall p: nat | Boundary(prog.subject, p) ensures Power(atom, prog.subject, 1, p) == atom(p) {
        PowerOne(prog.subject, backward, atom, p);
      }
      assert RunsAtom(prog, atom, pc, end, capture);
    } else {
      var mid := pc + 1 + |code|;
      assert [IPushI32(min)] + code + [ILoop(-(|code| + 1)), IDrop]
             == [IPushI32(min)] + code + [ILoop(-(|code| + 1))] + [IDrop];
      CodeAtConcat(prog, pc, [IPushI32(min)] + code + [ILoop(-(|code| + 1))], [IDrop]);
      CodeAtFramed(prog, pc, IPushI32(min), code, ILoop(-(|code| + 1)));
      assert Holds(prog, pc + (2 + |code|) + 0, [IDrop][0]);
      forall p: nat, stack, base | Boundary(prog.subject, p)
        ensures Explores(prog, At(pc, p, stack, capture, base), Power(atom, prog.subject, min, p), end, stack, capture,
                         base)
      {
        RequiredLoop(prog, atom, backward, pc + 1, mid, mid + 1, end, min, p, stack, capture, base);
        ExploresFromPush(prog, pc, pc + 1, min, p, Power(atom, prog.subject, min, p), stack, end, capture, base);
      }
    }
  }

  lemma PowerOne(t: Subject, backward: bool, atom: Explorer, p: nat)
    requires Boundary(t, p) && Directed(t, backward, atom)
    ensures Power(atom, t, 1, p) == atom(p)
  {
    var f := PowerOf(atom, t, 0);
    assert AllInDirection(t, backward, p, atom(p));
    forall i | 0 <= i < |atom(p)| ensures f(atom(p)[i]) == [atom(p)[i]] {
      assert InDirection(t, backward, p, atom(p)[i]);
    }
    BindSingletons(atom(p), f);
  }

  // ----- one piece after another -----

  function Then(first: Explorer, second: Explorer): (r: Explorer) {
    p => Bind(first(p), second)
  }

  lemma ThenRuns(prog: Program, first: Explorer, second: Explorer, backward: bool, pc: int, mid: int, end: int,
                 capture: Captures)
    requires Directed(prog.subject, backward, first)
    requires RunsAtom(prog, first, pc, mid, capture) && RunsAtom(prog, second, mid, end, capture)
    ensures RunsAtom(prog, Then(first, second), pc, end, capture)
  {
    forall p: nat, stack, base | Boundary(prog.subject, p)
      ensures Explores(prog, At(pc, p, stack, capture, base), Bind(first(p), second), end, stack, capture, base)
    {
      forall i, s | 0 <= i < |first(p)| && Extends(s, base)
        ensures Explores(prog, At(mid, first(p)[i], stack, capture, s), second(first(p)[i]), end, stack, capture, s)
      {
        assert AllInDirection(prog.subject, backward, p, first(p));
        assert InDirection(prog.subject, backward, p, first(p)[i]);
      }
      ExploresBind(prog, At(pc, p, stack, capture, base), first(p), second, mid, stack, end, stack, capture, base);
    }
  }

  /** Explorers that agree on boundaries run alike. */
  lemma RunsAlike(prog: Program, e: Explorer, f: Explorer, pc: int, to: int, capture: Captures)
    requires RunsAtom(prog, e, pc, to, capture)
    requires forall p: nat {:trigger f(p)} :: Boundary(prog.subject, p) ==> f(p) == e(p)
    ensures RunsAtom(prog, f, pc, to, capture)
  {
    forall p: nat, stack, base | Boundary(prog.subject, p)
      ensures Explores(prog, At(pc, p, stack, capture, base), f(p), to, stack, capture, base)
    {
      assert f(p) == e(p);
    }
  }

  lemma {:induction false} PowerDirected(t: Subject, backward: bool, atom: Explorer, k: nat)
    requires Directed(t, backward, atom)
    ensures Directed(t, backward, PowerOf(atom, t, k))
  {
    if k > 0 { PowerDirected(t, backward, atom, k - 1); }
    forall p: nat ensures AllInDirection(t, backward, p, PowerOf(atom, t, k)(p)) {
      if k > 0 && Boundary(t, p) {
        assert AllInDirection(t, backward, p, atom(p));
        BindInDirection(t, backward, p, atom(p), PowerOf(atom, t, k - 1));
      }
    }
  }

  /** Required iterations at `pc`, optional ones from `mid`. */
  lemma RequiredThenOptional(prog: Program, atom: Explorer, backward: bool, min: nat, max: nat, greedy: bool,
                             pc: int, mid: int, end: int, capture: Captures)
    requires Directed(prog.subject, backward, atom) && min <= max <= INFINITY
    requires RunsAtom(prog, PowerOf(atom, prog.subject, min), pc, mid, capture)
    requires RunsAtom(prog, RepeatOf(atom, backward, prog.subject, 0, Less(max, min), greedy), mid, end, capture)
    ensures RunsAtom(prog, RepeatOf(atom, backward, prog.subject, min, max, greedy), pc, end, capture)
  {
    var first, second := PowerOf(atom, prog.subject, min),
        RepeatOf(atom, backward, prog.subject, 0, Less(max, min), greedy);
    var whole := RepeatOf(atom, backward, prog.subject, min, max, greedy);
    PowerDirected(prog.subject, backward, atom, min);
    ThenRuns(prog, first, second, backward, pc, mid, end, capture);
    forall p: nat ensures whole(p) == Then(first, second)(p) {
      RepeatSplits(atom, backward, prog.subject, min, max, greedy, p);
    }
    RunsAlike(prog, Then(first, second), whole, pc, end, capture);
  }

  lemma PlusRuns(prog: Program, atom: Explorer, backward: bool, code: seq<Instr>, greedy: bool,
                 pc: int, end: int, capture: Captures)
    requires Directed(prog.subject, backward, atom) && ChecksAdvance(prog.subject, atom, code)
    requires RunsAnywhere(prog, atom, code, capture) && !NeedCheckAdvance(code)
    requires CodeAt(prog, pc, code + [Split(!greedy, -(|code| + 1))]) && end == pc + |code| + 1
    ensures RunsAtom(prog, RepeatOf(atom, backward, prog.subject, 1, INFINITY, greedy), pc, end, capture)
  {
    var mid := pc + |code|;
    CodeAtConcat(prog, pc, code, [Split(!greedy, -(|code| + 1))]);
    assert Holds(prog, mid + 0, [Split(!greedy, -(|code| + 1))][0]);
    assert RequiredCode(code, 1) == code;
    RequiredRuns(prog, atom, backward, code, 1, pc, mid, capture);
    PlusTailRuns(prog, atom, backward, greedy, pc, mid, end, capture);
    RequiredThenOptional(prog, atom, backward, 1, INFINITY, greedy, pc, mid, end, capture);
  }

  lemma PlusTailRuns(prog: Program, atom: Explorer, backward: bool, greedy: bool, pc: int, mid: int, end: int,
                     capture: Captures)
    requires Directed(prog.subject, backward, atom)
    requires forall p: nat :: Boundary(prog.subject, p) ==> p !in atom(p)
    requires RunsAtom(prog, atom, pc, mid, capture)
    requires Holds(prog, mid, Split(!greedy, pc - end)) && end == mid + 1
    ensures RunsAtom(prog, RepeatOf(atom, backward, prog.subject, 0, INFINITY, greedy), mid, end, capture)
  {
    RunsUncheckedBody(prog, atom, pc, mid, capture);
    forall p: nat, stack, base | Boundary(prog.subject, p)
      ensures Explores(prog, At(mid, p, stack, capture, base),
                       Repeat(atom, backward, prog.subject, 0, INFINITY, greedy, p), end, stack, capture, base)
    {
      PlusLoop(prog, atom, backward, greedy, pc, mid, end, p, stack, capture, base);
    }
  }

  /** Staying in place: no code at all. */
  lemma NothingRuns(prog: Program, e: Explorer, pc: int, capture: Captures)
    requires forall p: nat {:trigger e(p)} :: Boundary(prog.subject, p) ==> e(p) == [p]
    ensures RunsAtom(prog, e, pc, pc, capture)
  {
    forall p: nat, stack, base | Boundary(prog.subject, p)
      ensures Explores(prog, At(pc, p, stack, capture, base), e(p), pc, stack, capture, base)
    {
      assert e(p) == [p];
      ExploresOne(prog, pc, p, stack, capture, base);
    }
  }

  lemma ZeroRuns(prog: Program, atom: Explorer, backward: bool, greedy: bool, pc: int, capture: Captures)
    ensures RunsAtom(prog, RepeatOf(atom, backward, prog.subject, 0, 0, greedy), pc, pc, capture)
  {
    NothingRuns(prog, RepeatOf(atom, backward, prog.subject, 0, 0, greedy), pc, capture);
  }

  lemma GreedyRuns(prog: Program, atom: Explorer, code: seq<Instr>, min: nat, max: nat, pc: int, end: int,
                   capture: Captures)
    requires min <= max <= INFINITY && max > 0 && SimpleCount(code) > 0
    requires IsSimpleAtom(prog.subject, code, atom)
    requires CodeAt(prog, pc, [ISimpleGreedy(|code| + 1, min, max, SimpleCount(code))] + code + [IMatch])
    requires end == pc + |code| + 2
    ensures RunsAtom(prog, RepeatOf(atom, false, prog.subject, min, max, true), pc, end, capture)
  {
    CodeAtFramed(prog, pc, ISimpleGreedy(|code| + 1, min, max, SimpleCount(code)), code, IMatch);
    forall p: nat, stack, base | Boundary(prog.subject, p)
      ensures Explores(prog, At(pc, p, stack, capture, base),
                       Repeat(atom, false, prog.subject, min, max, true, p), end, stack, capture, base)
    {
      GreedyQuantifier(prog, code, atom, pc, end, min, max, p, stack, capture, base);
    }
  }

  /** `min` required iterations and the optional ones after them. */
  lemma BoundedRuns(prog: Program, atom: Explorer, backward: bool, code: seq<Instr>, min: nat, max: nat, greedy: bool,
                    pc: int, end: int, capture: Captures)
    requires Directed(prog.subject, backward, atom) && ChecksAdvance(prog.subject, atom, code)
    requires RunsAnywhere(prog, atom, code, capture) && 0 < min <= max <= INFINITY
    requires var tail := if Less(max, min) == 0 then [] else OptionalCode(code, Less(max, min), greedy);
             CodeAt(prog, pc, RequiredCode(code, min) + tail) && end == pc + |RequiredCode(code, min)| + |tail|
    ensures RunsAtom(prog, RepeatOf(atom, backward, prog.subject, min, max, greedy), pc, end, capture)
  {
    hide Explores, Repeat, Directed, ChecksAdvance, RunsAnywhere, OptionalCode, RequiredCode, CodeAt;
    var rest := Less(max, min);
    var tail := if rest == 0 then [] else OptionalCode(code, rest, greedy);
    var mid := pc + |RequiredCode(code, min)|;
    CodeAtConcat(prog, pc, RequiredCode(code, min), tail);
    RequiredRuns(prog, atom, backward, code, min, pc, mid, capture);
    if rest == 0 {
      ZeroRuns(prog, atom, backward, greedy, mid, capture);
    } else {
      OptionalRuns(prog, atom, backward, code, rest, greedy, mid, end, capture);
    }
    RequiredThenOptional(prog, atom, backward, min, max, greedy, pc, mid, end, capture);
  }

  /** The code of a quantifier explores the repetitions of its atom. */
  lemma QuantifierRuns(prog: Program, atom: Explorer, backward: bool, code: seq<Instr>, min: nat, max: nat,
                       greedy: bool, pc: int, end: int, capture: Captures)
    requires Directed(prog.subject, backward, atom) && ChecksAdvance(prog.subject, atom, code)
    requires RunsAnywhere(prog, atom, code, capture) && min <= max <= INFINITY
    requires SimpleCount(code) > 0 ==> !backward && IsSimpleAtom(prog.subject, code, atom)
    requires CodeAt(prog, pc, QuantCode(code, min, max, greedy)) && end == pc + |QuantCode(code, min, max, greedy)|
    ensures RunsAtom(prog, RepeatOf(atom, backward, prog.subject, min, max, greedy), pc, end, capture)
  {
    hide Explores, Repeat, Directed, ChecksAdvance, RunsAnywhere, OptionalCode, RequiredCode, CodeAt, IsSimpleAtom;
    if greedy && max > 0 && SimpleCount(code) > 0 {
      GreedyRuns(prog, atom, code, min, max, pc, end, capture);
    } else if max == 0 {
      ZeroRuns(prog, atom, backward, greedy, pc, capture);
    } else if min == 0 && max == 1 {
      OnceRuns(prog, atom, backward, code, greedy, pc, end, capture);
    } else if min == 0 {
      OptionalRuns(prog, atom, backward, code, max, greedy, pc, end, capture);
    } else if min == 1 && max == INFINITY && !NeedCheckAdvance(code) {
      PlusRuns(prog, atom, backward, code, greedy, pc, end, capture);
    } else {
      BoundedRuns(prog, atom, backward, code, min, max, greedy, pc, end, capture);
    }
  }
}
