/** The simple greedy quantifier: one saved state that steps back stands for a whole pile of
    alternatives. */
module RegexGreedy {
  import opened RegexSyntax
  import opened RegexSemantics
  import opened RegexVm
  import opened RegexExplore
  import opened RegexSteps
  import opened RegexAtoms
  import opened Subject

  function Inner(pc: int, p: nat, stack: seq<nat>, capture: Captures, base: SavedStack, f: Frame): (r: Config) {
    Run(pc, p, stack, capture, base, Some(f))
  }

  lemma InnerRead(prog: Program, pc: int, op: CharOp, p: nat, stack: seq<nat>, capture: Captures, base: SavedStack,
                  f: Frame)
    requires Holds(prog, pc, IRead(op)) && p < |prog.subject.units| && OpAccepts(op, CharAt(prog.subject, p))
    ensures Reaches(prog, Inner(pc, p, stack, capture, base, f),
                    Inner(pc + 1, NextPos(prog.subject, p), stack, capture, base, f))
  {
    ReachesStep(prog, Inner(pc, p, stack, capture, base, f),
                Inner(pc + 1, NextPos(prog.subject, p), stack, capture, base, f));
  }

  lemma InnerAssert(prog: Program, pc: int, kind: Assertion, p: nat, stack: seq<nat>, capture: Captures,
                    base: SavedStack, f: Frame)
    requires Holds(prog, pc, IAssert(kind)) && p <= |prog.subject.units| && Asserts(kind, prog.subject, p)
    ensures Reaches(prog, Inner(pc, p, stack, capture, base, f), Inner(pc + 1, p, stack, capture, base, f))
  {
    ReachesStep(prog, Inner(pc, p, stack, capture, base, f), Inner(pc + 1, p, stack, capture, base, f));
  }

  /** The saved state that still has `k` positions behind `p` to try. */
  function Pending(pc: int, p: nat, k: nat, stack: seq<nat>, capture: Captures, base: SavedStack): (r: SavedStack) {
    if k == 0 then base else Push(Saved(GreedyPoint, pc, p, stack, capture, k), base)
  }

  /** How the loop goes on from frame `f` when it stops. */
  function Leave(pc: int, min: nat, target: int, f: Frame, stack: seq<nat>, capture: Captures,
                 base: SavedStack): (r: Config) {
    if f.iterations < min then Fail(base)
    else At(target, f.cptr, stack, capture, Pending(pc, f.cptr, f.iterations - min, stack, capture, base))
  }

  /** The quantifier at `pc`, its bounds, and where it continues. */
  predicate IsQuant(prog: Program, pc: int, min: nat, max: nat, count: nat, target: int) {
    Holds(prog, pc, ISimpleGreedy(target - pc - 1, min, max, count))
  }

  lemma InnerStops(prog: Program, pc: int, i: Instr, p: nat, stack: seq<nat>, capture: Captures, base: SavedStack,
                   f: Frame, min: nat, max: nat, count: nat, target: int)
    requires Holds(prog, pc, i) && p <= |prog.subject.units| && IsQuant(prog, f.pc, min, max, count, target)
    requires (i.IRead? && !(p < |prog.subject.units| && OpAccepts(i.op, CharAt(prog.subject, p))))
             || (i.IAssert? && !Asserts(i.kind, prog.subject, p))
    ensures Reaches(prog, Inner(pc, p, stack, capture, base, f), Leave(f.pc, min, target, f, stack, capture, base))
  {
    ReachesStep(prog, Inner(pc, p, stack, capture, base, f), Leave(f.pc, min, target, f, stack, capture, base));
  }

  lemma InnerMatch(prog: Program, pc: int, p: nat, stack: seq<nat>, capture: Captures, base: SavedStack,
                   f: Frame, min: nat, max: nat, count: nat, target: int)
    requires Holds(prog, pc, IMatch) && p <= |prog.subject.units| && IsQuant(prog, f.pc, min, max, count, target)
    ensures var g := Frame(f.pc, p, f.iterations + 1);
            Reaches(prog, Inner(pc, p, stack, capture, base, f),
                    if g.iterations >= max && max != INFINITY then Leave(f.pc, min, target, g, stack, capture, base)
                    else Inner(f.pc + 1, p, stack, capture, base, g))
  {
    var g := Frame(f.pc, p, f.iterations + 1);
    ReachesStep(prog, Inner(pc, p, stack, capture, base, f),
                if g.iterations >= max && max != INFINITY then Leave(f.pc, min, target, g, stack, capture, base)
                else Inner(f.pc + 1, p, stack, capture, base, g));
  }

  /** One inner run: it arrives at the end of the atom exactly when the straight run does. */
  lemma {:induction false} InnerRun(prog: Program, code: seq<Instr>, pc: int, p: nat, stack: seq<nat>,
                                    capture: Captures, base: SavedStack, f: Frame,
                                    min: nat, max: nat, count: nat, target: int)
    requires CodeAt(prog, pc, code) && SimpleCount(code) >= 0 && p <= |prog.subject.units|
    requires IsQuant(prog, f.pc, min, max, count, target)
    ensures match StraightRun(code, prog.subject, p)
            case None =>
              Reaches(prog, Inner(pc, p, stack, capture, base, f), Leave(f.pc, min, target, f, stack, capture, base))
            case Some(q) =>
              Reaches(prog, Inner(pc, p, stack, capture, base, f), Inner(pc + |code|, q, stack, capture, base, f))
  {
    var start := Inner(pc, p, stack, capture, base, f);
    if code == [] {
      ReachesSelf(prog, start);
    } else {
      var t := prog.subject;
      CodeAtTail(prog, pc, code);
      match code[0]
      case IRead(op) =>
        if p < |t.units| && OpAccepts(op, CharAt(t, p)) {
          InnerRead(prog, pc, op, p, stack, capture, base, f);
          InnerRun(prog, code[1..], pc + 1, NextPos(t, p), stack, capture, base, f, min, max, count, target);
          InnerJoin(prog, code, pc, NextPos(t, p), start, stack, capture, base, f, min, target);
        } else {
          InnerStops(prog, pc, code[0], p, stack, capture, base, f, min, max, count, target);
        }
      case IAssert(kind) =>
        if Asserts(kind, t, p) {
          InnerAssert(prog, pc, kind, p, stack, capture, base, f);
          InnerRun(prog, code[1..], pc + 1, p, stack, capture, base, f, min, max, count, target);
          InnerJoin(prog, code, pc, p, start, stack, capture, base, f, min, target);
        } else {
          InnerStops(prog, pc, code[0], p, stack, capture, base, f, min, max, count, target);
        }
    }
  }

  lemma InnerJoin(prog: Program, code: seq<Instr>, pc: int, p: nat, start: Config, stack: seq<nat>,
                  capture: Captures, base: SavedStack, f: Frame, min: nat, target: int)
    requires code != [] && SimpleCount(code) >= 0 && p <= |prog.subject.units|
    requires var next := Inner(pc + 1, p, stack, capture, base, f);
             Reaches(prog, start, next)
             && match StraightRun(code[1..], prog.subject, p)
                case None => Reaches(prog, next, Leave(f.pc, min, target, f, stack, capture, base))
                case Some(q) => Reaches(prog, next, Inner(pc + 1 + |code[1..]|, q, stack, capture, base, f))
    ensures match StraightRun(code[1..], prog.subject, p)
            case None => Reaches(prog, start, Leave(f.pc, min, target, f, stack, capture, base))
            case Some(q) => Reaches(prog, start, Inner(pc + |code|, q, stack, capture, base, f))
  {
    var next := Inner(pc + 1, p, stack, capture, base, f);
    match StraightRun(code[1..], prog.subject, p)
    case None => ReachesTransitive(prog, start, next, Leave(f.pc, min, target, f, stack, capture, base));
    case Some(q) => ReachesTransitive(prog, start, next, Inner(pc + |code|, q, stack, capture, base, f));
  }

  // ----- stepping back -----

  /** The positions tried after `p`: back by `count` characters at a time, `k` times. */
  function BackFrom(t: Subject, count: nat, p: nat, k: nat): (r: seq<nat>)
    decreases k
  {
    if k == 0 then []
    else
      var q := PrevMany(t, p, count);
      [q] + BackFrom(t, count, q, k - 1)
  }

  lemma StepBackOff(prog: Program, pc: int, min: nat, max: nat, count: nat, target: int, p: nat, k: nat,
                    stack: seq<nat>, capture: Captures, base: SavedStack)
    requires IsQuant(prog, pc, min, max, count, target) && k > 0
    ensures var q := PrevMany(prog.subject, p, count);
            Reaches(prog, Fail(Pending(pc, p, k, stack, capture, base)),
                    At(target, q, stack, capture, Pending(pc, q, k - 1, stack, capture, base)))
  {
    var q := PrevMany(prog.subject, p, count);
    ReachesStep(prog, Fail(Pending(pc, p, k, stack, capture, base)),
                At(target, q, stack, capture, Pending(pc, q, k - 1, stack, capture, base)));
  }

  lemma PendingExtends(pc: int, p: nat, k: nat, stack: seq<nat>, capture: Captures, base: SavedStack)
    ensures Extends(Pending(pc, p, k, stack, capture, base), base)
  {
    assert Extends(base, base);
  }

  /** A saved greedy state explores the positions behind it. */
  lemma {:induction false} ExploresBack(prog: Program, pc: int, min: nat, max: nat, count: nat, target: int, p: nat,
                                        k: nat, stack: seq<nat>, capture: Captures, base: SavedStack)
    requires IsQuant(prog, pc, min, max, count, target)
    ensures Explores(prog, Fail(Pending(pc, p, k, stack, capture, base)),
                     BackFrom(prog.subject, count, p, k), target, stack, capture, base)
    decreases k
  {
    if k == 0 {
      ExploresNone(prog, target, stack, capture, base);
    } else {
      var q := PrevMany(prog.subject, p, count);
      StepBackOff(prog, pc, min, max, count, target, p, k, stack, capture, base);
      hide Explores, Extends, PrevMany, Pending;
      ExploresBack(prog, pc, min, max, count, target, q, k - 1, stack, capture, base);
      PendingExtends(pc, q, k - 1, stack, capture, base);
      ExploresCons(prog, Fail(Pending(pc, p, k, stack, capture, base)), q,
                   BackFrom(prog.subject, count, q, k - 1), target, stack, capture,
                   Pending(pc, q, k - 1, stack, capture, base), base);
    }
  }

  /** What is explored after leaving the loop: the last position, then those behind it. */
  function LeaveList(t: Subject, count: nat, min: nat, p: nat, k: nat): (r: seq<nat>) {
    if k < min then [] else [p] + BackFrom(t, count, p, k - min)
  }

  lemma ExploresLeave(prog: Program, pc: int, min: nat, max: nat, count: nat, target: int, f: Frame,
                      stack: seq<nat>, capture: Captures, base: SavedStack)
    requires IsQuant(prog, pc, min, max, count, target)
    ensures Explores(prog, Leave(pc, min, target, f, stack, capture, base),
                     LeaveList(prog.subject, count, min, f.cptr, f.iterations), target, stack, capture, base)
  {
    hide Explores, Reaches, BackFrom;
    if f.iterations < min {
      ExploresNone(prog, target, stack, capture, base);
    } else {
      var k := f.iterations - min;
      var states := Pending(pc, f.cptr, k, stack, capture, base);
      ExploresBack(prog, pc, min, max, count, target, f.cptr, k, stack, capture, base);
      PendingExtends(pc, f.cptr, k, stack, capture, base);
      ReachesSelf(prog, At(target, f.cptr, stack, capture, states));
      ExploresCons(prog, At(target, f.cptr, stack, capture, states), f.cptr,
                   BackFrom(prog.subject, count, f.cptr, k), target, stack, capture, states, base);
    }
  }

  // ----- the loop -----

  function Less(max: nat, k: nat): (r: nat) {
    if max == INFINITY then INFINITY else if max < k then 0 else max - k
  }

  function AtLeast(min: nat, k: nat): (r: nat) {
    if min < k then 0 else min - k
  }

  /** What the loop explores from `p` after `k` iterations: further iterations, and then, once
      the minimum is behind, the positions already passed. */
  function LoopList(atom: Explorer, t: Subject, count: nat, min: nat, max: nat, p: nat, k: nat): (r: seq<nat>) {
    Repeat(atom, false, t, AtLeast(min, k), Less(max, k), true, p)
    + (if k > min then BackFrom(t, count, p, k - min) else [])
  }

  /** An atom that stops: the list is what leaving explores. */
  lemma ListStops(atom: Explorer, t: Subject, count: nat, min: nat, max: nat, p: nat, k: nat)
    requires Boundary(t, p) && atom(p) == [] && min <= max <= INFINITY && (max == INFINITY || k < max)
    ensures LoopList(atom, t, count, min, max, p, k) == LeaveList(t, count, min, p, k)
  {
    assert Advancing([], p) == [];
  }

  /** An atom that goes on: the rest of the list is the list from there. */
  lemma ListGoesOn(atom: Explorer, t: Subject, count: nat, min: nat, max: nat, p: nat, q: nat, k: nat)
    requires Boundary(t, p) && Boundary(t, q) && p < q && atom(p) == [q] && PrevMany(t, q, count) == p
    requires min <= max <= INFINITY && (max == INFINITY || k < max)
    ensures LoopList(atom, t, count, min, max, p, k) == LoopList(atom, t, count, min, max, q, k + 1)
  {
    if k < min {
      BindOne(q, AfterRequired(atom, false, t, AtLeast(min, k), Less(max, k), true));
      assert Less(max, k + 1) == Decrement(Less(max, k)) && AtLeast(min, k + 1) == AtLeast(min, k) - 1;
    } else {
      assert Advancing([q], p) == [q] + Advancing([], p) == [q];
      BindOne(q, AfterOptional(atom, false, t, Less(max, k), true, p));
      var rest := Repeat(atom, false, t, 0, Less(max, k + 1), true, q);
      var back := BackFrom(t, count, p, k - min);
      assert Less(max, k + 1) == Decrement(Less(max, k));
      assert Repeat(atom, false, t, 0, Less(max, k), true, p) == rest + [p];
      assert BackFrom(t, count, q, k + 1 - min) == [p] + back;
      assert rest + [p] + back == rest + ([p] + back);
    }
  }

  lemma BindOne(q: nat, f: Explorer)
    ensures Bind([q], f) == f(q)
  {
    assert Bind([q], f) == f(q) + Bind([q][1..], f);
  }

  /** At the upper bound the list is what leaving explores. */
  lemma ListFull(atom: Explorer, t: Subject, count: nat, min: nat, max: nat, p: nat)
    requires Boundary(t, p) && min <= max && max != INFINITY
    ensures LoopList(atom, t, count, min, max, p, max) == LeaveList(t, count, min, p, max)
  {
  }

  /** `atom` lists what running `code` straight through finds. */
  ghost predicate IsSimpleAtom(t: Subject, code: seq<Instr>, atom: Explorer)
    requires SimpleCount(code) >= 0
  {
    forall p: nat {:trigger atom(p)} :: Boundary(t, p) ==> atom(p) == ToSeq(StraightRun(code, t, p))
  }

  /** The shape of a compiled simple greedy quantifier: the instruction, the atom, a match. */
  ghost predicate IsGreedyCode(prog: Program, pc: int, code: seq<Instr>, min: nat, max: nat, target: int) {
    && SimpleCount(code) > 0 && min <= max <= INFINITY && max > 0
    && IsQuant(prog, pc, min, max, SimpleCount(code), target)
    && CodeAt(prog, pc + 1, code) && Holds(prog, pc + 1 + |code|, IMatch)
  }

  /** What the loop explores, following its runs. */
  function GreedyList(code: seq<Instr>, t: Subject, min: nat, max: nat, p: nat, k: nat): (r: seq<nat>)
    requires SimpleCount(code) > 0
    decreases if p <= |t.units| then |t.units| - p else 0
  {
    if !Boundary(t, p) then []
    else
      match StraightRun(code, t, p)
      case None => LeaveList(t, SimpleCount(code), min, p, k)
      case Some(q) =>
        StraightRunBack(code, t, p, 0);
        if max == INFINITY || k + 1 < max then GreedyList(code, t, min, max, q, k + 1)
        else LeaveList(t, SimpleCount(code), min, q, k + 1)
  }

  /** That list is the general repetition of the atom, and then the positions already passed. */
  lemma {:induction false} GreedyListIsRepeat(code: seq<Instr>, atom: Explorer, t: Subject, min: nat, max: nat,
                                              p: nat, k: nat)
    requires SimpleCount(code) > 0 && IsSimpleAtom(t, code, atom) && Boundary(t, p)
    requires min <= max <= INFINITY && (max == INFINITY || k < max)
    ensures GreedyList(code, t, min, max, p, k) == LoopList(atom, t, SimpleCount(code), min, max, p, k)
    decreases |t.units| - p
  {
    hide LoopList, Repeat, StraightRun, LeaveList, SimpleCount;
    var count := SimpleCount(code);
    assert atom(p) == ToSeq(StraightRun(code, t, p));
    match StraightRun(code, t, p)
    case None => ListStops(atom, t, count, min, max, p, k);
    case Some(q) =>
      StraightRunBack(code, t, p, 0);
      ListGoesOn(atom, t, count, min, max, p, q, k);
      if max == INFINITY || k + 1 < max {
        GreedyListIsRepeat(code, atom, t, min, max, q, k + 1);
      } else {
        ListFull(atom, t, count, min, max, q);
      }
  }

  lemma {:induction false} GreedyLoop(prog: Program, code: seq<Instr>, pc: int, target: int,
                                      min: nat, max: nat, p: nat, k: nat,
                                      stack: seq<nat>, capture: Captures, base: SavedStack)
    requires IsGreedyCode(prog, pc, code, min, max, target) && Boundary(prog.subject, p)
    ensures Explores(prog, Inner(pc + 1, p, stack, capture, base, Frame(pc, p, k)),
                     GreedyList(code, prog.subject, min, max, p, k), target, stack, capture, base)
    decreases |prog.subject.units| - p
  {
    hide Explores, Reaches, LeaveList, SimpleCount;
    var t, count, mid := prog.subject, SimpleCount(code), pc + 1 + |code|;
    var f := Frame(pc, p, k);
    var start := Inner(pc + 1, p, stack, capture, base, f);
    InnerRun(prog, code, pc + 1, p, stack, capture, base, f, min, max, count, target);
    match StraightRun(code, t, p)
    case None =>
      GreedyStops(prog, start, f, min, max, count, target, stack, capture, base);
    case Some(q) =>
      StraightRunBack(code, t, p, 0);
      if max == INFINITY || k + 1 < max {
        GreedyLoop(prog, code, pc, target, min, max, q, k + 1, stack, capture, base);
        GreedyAgain(prog, start, f, mid, min, max, count, target, q,
                    GreedyList(code, t, min, max, q, k + 1), stack, capture, base);
      } else {
        GreedyFull(prog, start, f, mid, min, max, count, target, q, stack, capture, base);
      }
  }

  lemma GreedyStops(prog: Program, start: Config, f: Frame, min: nat, max: nat, count: nat, target: int,
                    stack: seq<nat>, capture: Captures, base: SavedStack)
    requires IsQuant(prog, f.pc, min, max, count, target)
    requires Reaches(prog, start, Leave(f.pc, min, target, f, stack, capture, base))
    ensures Explores(prog, start, LeaveList(prog.subject, count, min, f.cptr, f.iterations), target, stack, capture,
                     base)
  {
    ExploresLeave(prog, f.pc, min, max, count, target, f, stack, capture, base);
    ExploresAfter(prog, start, Leave(f.pc, min, target, f, stack, capture, base),
                  LeaveList(prog.subject, count, min, f.cptr, f.iterations), target, stack, capture, base);
  }

  /** After a successful inner run below the upper bound: round again. */
  lemma GreedyAgain(prog: Program, start: Config, f: Frame, mid: int, min: nat, max: nat, count: nat, target: int,
                    q: nat, list: seq<nat>, stack: seq<nat>, capture: Captures, base: SavedStack)
    requires IsQuant(prog, f.pc, min, max, count, target) && Holds(prog, mid, IMatch) && q <= |prog.subject.units|
    requires max == INFINITY || f.iterations + 1 < max
    requires Reaches(prog, start, Inner(mid, q, stack, capture, base, f))
    requires Explores(prog, Inner(f.pc + 1, q, stack, capture, base, Frame(f.pc, q, f.iterations + 1)), list,
                      target, stack, capture, base)
    ensures Explores(prog, start, list, target, stack, capture, base)
  {
    var arrived := Inner(mid, q, stack, capture, base, f);
    var again := Inner(f.pc + 1, q, stack, capture, base, Frame(f.pc, q, f.iterations + 1));
    InnerMatch(prog, mid, q, stack, capture, base, f, min, max, count, target);
    ReachesTransitive(prog, start, arrived, again);
    ExploresAfter(prog, start, again, list, target, stack, capture, base);
  }

  /** After a successful inner run at the upper bound: leave. */
  lemma GreedyFull(prog: Program, start: Config, f: Frame, mid: int, min: nat, max: nat, count: nat, target: int,
                   q: nat, stack: seq<nat>, capture: Captures, base: SavedStack)
    requires IsQuant(prog, f.pc, min, max, count, target) && Holds(prog, mid, IMatch) && q <= |prog.subject.units|
    requires max != INFINITY && f.iterations + 1 >= max
    requires Reaches(prog, start, Inner(mid, q, stack, capture, base, f))
    ensures Explores(prog, start, LeaveList(prog.subject, count, min, q, f.iterations + 1), target, stack, capture,
                     base)
  {
    var g := Frame(f.pc, q, f.iterations + 1);
    InnerMatch(prog, mid, q, stack, capture, base, f, min, max, count, target);
    ReachesTransitive(prog, start, Inner(mid, q, stack, capture, base, f),
                      Leave(f.pc, min, target, g, stack, capture, base));
    GreedyStops(prog, start, g, min, max, count, target, stack, capture, base);
  }

  lemma StepGreedy(prog: Program, pc: int, min: nat, max: nat, count: nat, target: int, p: nat,
                   stack: seq<nat>, capture: Captures, base: SavedStack)
    requires IsQuant(prog, pc, min, max, count, target) && p <= |prog.subject.units|
    ensures Reaches(prog, At(pc, p, stack, capture, base), Inner(pc + 1, p, stack, capture, base, Frame(pc, p, 0)))
  {
    ReachesStep(prog, At(pc, p, stack, capture, base), Inner(pc + 1, p, stack, capture, base, Frame(pc, p, 0)));
  }

  /** The single saved state of a simple greedy quantifier tries the same end positions, in the
      same order, as the general repetition of its atom. */
  lemma GreedyQuantifier(prog: Program, code: seq<Instr>, atom: Explorer, pc: int, target: int, min: nat, max: nat,
                         p: nat, stack: seq<nat>, capture: Captures, base: SavedStack)
    requires IsGreedyCode(prog, pc, code, min, max, target) && IsSimpleAtom(prog.subject, code, atom)
    requires Boundary(prog.subject, p)
    ensures Explores(prog, At(pc, p, stack, capture, base),
                     Repeat(atom, false, prog.subject, min, max, true, p), target, stack, capture, base)
  {
    var list := GreedyList(code, prog.subject, min, max, p, 0);
    GreedyListIsRepeat(code, atom, prog.subject, min, max, p, 0);
    assert list == Repeat(atom, false, prog.subject, min, max, true, p);
    GreedyLoop(prog, code, pc, target, min, max, p, 0, stack, capture, base);
    StepGreedy(prog, pc, min, max, SimpleCount(code), target, p, stack, capture, base);
    ExploresAfter(prog, At(pc, p, stack, capture, base), Inner(pc + 1, p, stack, capture, base, Frame(pc, p, 0)),
                  list, target, stack, capture, base);
  }
}
