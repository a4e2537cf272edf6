/** The loops around an atom explore the repetitions of the atom. */
module RegexLoops {
  import opened RegexSyntax
  import opened RegexSemantics
  import opened RegexVm
  import opened RegexExplore
  import opened RegexSteps
  import opened RegexAtoms
  import opened Subject

  /** The code from `pc` to `to` explores what `atom` lists, whatever is pending and stacked. */
  ghost predicate RunsAtom(prog: Program, atom: Explorer, pc: int, to: int, capture: Captures) {
    forall p: nat, stack, base {:trigger At(pc, p, stack, capture, base)} ::
      Boundary(prog.subject, p) ==>
        Explores(prog, At(pc, p, stack, capture, base), atom(p), to, stack, capture, base)
  }

  /** The code from `pc` to `to` explores the iterations of the atom that move. */
  ghost predicate RunsBody(prog: Program, atom: Explorer, pc: int, to: int, capture: Captures) {
    forall p: nat, stack, base {:trigger At(pc, p, stack, capture, base)} ::
      Boundary(prog.subject, p) ==>
        Explores(prog, At(pc, p, stack, capture, base), Advancing(atom(p), p), to, stack, capture, base)
  }

  // ----- one optional iteration -----

  function Unless(q: nat, p: nat): (r: seq<nat>) {
    if q == p then [] else [q]
  }

  lemma ExploresUnless(prog: Program, pc: int, next: int, q: nat, p: nat, stack: seq<nat>, capture: Captures,
                       base: SavedStack)
    requires Holds(prog, pc, ICheckAdvance) && next == pc + 1 && q <= |prog.subject.units|
    ensures Explores(prog, At(pc, q, stack + [p], capture, base), Unless(q, p), next, stack, capture, base)
  {
    var start := At(pc, q, stack + [p], capture, base);
    StepCheckAdvance(prog, pc, next, p, q, stack, capture, base);
    if q == p {
      ExploresNone(prog, next, stack, capture, base);
      ExploresAfter(prog, start, Fail(base), [], next, stack, capture, base);
    } else {
      ExploresOne(prog, next, q, stack, capture, base);
      ExploresAfter(prog, start, At(next, q, stack, capture, base), [q], next, stack, capture, base);
    }
  }

  /** The zero-advance check keeps exactly the iterations that moved. */
  lemma ExploresChecked(prog: Program, c: Config, qs: seq<nat>, p: nat, pc: int, next: int, stack: seq<nat>,
                        capture: Captures, base: SavedStack)
    requires Explores(prog, c, qs, pc, stack + [p], capture, base)
    requires Holds(prog, pc, ICheckAdvance) && next == pc + 1
    requires forall i :: 0 <= i < |qs| ==> qs[i] <= |prog.subject.units|
    ensures Explores(prog, c, Advancing(qs, p), next, stack, capture, base)
  {
    var f := (q: nat) => Unless(q, p);
    forall i, states | 0 <= i < |qs| && Extends(states, base)
      ensures Explores(prog, At(pc, qs[i], stack + [p], capture, states), f(qs[i]), next, stack, capture, states)
    {
      ExploresUnless(prog, pc, next, qs[i], p, stack, capture, states);
    }
    ExploresBind(prog, c, qs, f, pc, stack + [p], next, stack, capture, base);
    BindIsAdvancing(qs, p, f);
  }

  lemma {:induction false} BindIsAdvancing(qs: seq<nat>, p: nat, f: Explorer)
    requires forall q: nat {:trigger f(q)} :: f(q) == Unless(q, p)
    ensures Bind(qs, f) == Advancing(qs, p)
  {
    if qs != [] { BindIsAdvancing(qs[1..], p, f); }
  }

  lemma CheckedBody(prog: Program, qs: seq<nat>, pc: int, start: int, mid: int, to: int, p: nat, stack: seq<nat>,
                    capture: Captures, base: SavedStack)
    requires Holds(prog, pc, IPushCharPos) && start == pc + 1
    requires Holds(prog, mid, ICheckAdvance) && to == mid + 1 && p <= |prog.subject.units|
    requires Explores(prog, At(start, p, stack + [p], capture, base), qs, mid, stack + [p], capture, base)
    requires forall i :: 0 <= i < |qs| ==> qs[i] <= |prog.subject.units|
    ensures Explores(prog, At(pc, p, stack, capture, base), Advancing(qs, p), to, stack, capture, base)
  {
    var c := At(pc, p, stack, capture, base);
    StepPushCharPos(prog, pc, start, p, stack, capture, base);
    ExploresAfter(prog, c, At(start, p, stack + [p], capture, base), qs, mid, stack + [p], capture, base);
    ExploresChecked(prog, c, qs, p, mid, to, stack, capture, base);
  }

  lemma RunsCheckedBody(prog: Program, atom: Explorer, backward: bool, pc: int, start: int, mid: int, to: int,
                        capture: Captures)
    requires Directed(prog.subject, backward, atom)
    requires Holds(prog, pc, IPushCharPos) && start == pc + 1 && Holds(prog, mid, ICheckAdvance) && to == mid + 1
    requires RunsAtom(prog, atom, start, mid, capture)
    ensures RunsBody(prog, atom, pc, to, capture)
  {
    forall p: nat, stack, base | Boundary(prog.subject, p)
      ensures Explores(prog, At(pc, p, stack, capture, base), Advancing(atom(p), p), to, stack, capture, base)
    {
      assert AllInDirection(prog.subject, backward, p, atom(p));
      CheckedBody(prog, atom(p), pc, start, mid, to, p, stack, capture, base);
    }
  }

  lemma RunsUncheckedBody(prog: Program, atom: Explorer, pc: int, to: int, capture: Captures)
    requires forall p: nat :: Boundary(prog.subject, p) ==> p !in atom(p)
    requires RunsAtom(prog, atom, pc, to, capture)
    ensures RunsBody(prog, atom, pc, to, capture)
  {
    forall p: nat, stack, base | Boundary(prog.subject, p)
      ensures Explores(prog, At(pc, p, stack, capture, base), Advancing(atom(p), p), to, stack, capture, base)
    {
      AllAdvance(atom(p), p);
    }
  }

  // ----- a choice between two branches -----

  /** A split explores what its first branch explores, then what its second branch does. */
  lemma ExploresSplit(prog: Program, pc: int, nextFirst: bool, offset: int, first: int, second: int,
                      qs: seq<nat>, rs: seq<nat>, p: nat, stack: seq<nat>, end: int, endStack: seq<nat>,
                      capture: Captures, inner: SavedStack, base: SavedStack)
    requires Holds(prog, pc, Split(nextFirst, offset)) && Branches(pc, nextFirst, offset, first, second)
    requires p <= |prog.subject.units|
    requires inner == Push(SavedAt(SplitPoint, second, p, stack, capture), base)
    requires Explores(prog, At(first, p, stack, capture, inner), qs, end, endStack, capture, inner)
    requires Explores(prog, At(second, p, stack, capture, base), rs, end, endStack, capture, base)
    ensures Explores(prog, At(pc, p, stack, capture, base), qs + rs, end, endStack, capture, base)
  {
    var start := At(pc, p, stack, capture, base);
    assert Extends(inner, base);
    StepSplit(prog, pc, nextFirst, offset, first, second, p, stack, capture, base);
    ExploresAfter(prog, start, At(first, p, stack, capture, inner), qs, end, endStack, capture, inner);
    StepRetry(prog, inner.top, base);
    ExploresAfter(prog, Fail(inner), At(second, p, stack, capture, base), rs, end, endStack, capture, base);
    ExploresConcat(prog, start, qs, rs, end, endStack, capture, inner, base);
  }

  lemma ExploresExit(prog: Program, pc: int, p: nat, stack: seq<nat>, end: int, endStack: seq<nat>, capture: Captures,
                     base: SavedStack)
    requires Reaches(prog, At(pc, p, stack, capture, base), At(end, p, endStack, capture, base))
    ensures Explores(prog, At(pc, p, stack, capture, base), [p], end, endStack, capture, base)
  {
    ExploresOne(prog, end, p, endStack, capture, base);
    ExploresAfter(prog, At(pc, p, stack, capture, base), At(end, p, endStack, capture, base), [p],
                  end, endStack, capture, base);
  }

  /** The exit of a loop is open whatever is pending. */
  ghost predicate Exits(prog: Program, pc: int, p: nat, stack: seq<nat>, end: int, endStack: seq<nat>,
                        capture: Captures, base: SavedStack)
  {
    forall states {:trigger At(pc, p, stack, capture, states)} :: Extends(states, base) ==>
      Reaches(prog, At(pc, p, stack, capture, states), At(end, p, endStack, capture, states))
  }

  /** Whatever is pending, starting at `pc` explores `qs`. */
  ghost predicate Lists(prog: Program, pc: int, p: nat, stack: seq<nat>, qs: seq<nat>, end: int, endStack: seq<nat>,
                        capture: Captures, base: SavedStack)
  {
    forall states {:trigger At(pc, p, stack, capture, states)} :: Extends(states, base) ==>
      Explores(prog, At(pc, p, stack, capture, states), qs, end, endStack, capture, states)
  }

  /** The list of a choice between going on and leaving at `p`. */
  function Choice(greedy: bool, more: seq<nat>, p: nat): (r: seq<nat>) {
    if greedy then more + [p] else [p] + more
  }

  /** The targets of a split that runs a body or leaves; the greedy one tries the body first. */
  predicate RoundTargets(pc: int, nextFirst: bool, offset: int, body: int, exit: int, greedy: bool) {
    if greedy then Branches(pc, nextFirst, offset, body, exit) else Branches(pc, nextFirst, offset, exit, body)
  }

  lemma ExploresRound(prog: Program, pc: int, nextFirst: bool, offset: int, body: int, exit: int, greedy: bool,
                      qs: seq<nat>, p: nat, stack: seq<nat>, end: int, endStack: seq<nat>,
                      capture: Captures, base: SavedStack)
    requires Holds(prog, pc, Split(nextFirst, offset)) && RoundTargets(pc, nextFirst, offset, body, exit, greedy)
    requires p <= |prog.subject.units|
    requires Lists(prog, body, p, stack, qs, end, endStack, capture, base)
    requires Exits(prog, exit, p, stack, end, endStack, capture, base)
    ensures Explores(prog, At(pc, p, stack, capture, base), Choice(greedy, qs, p), end, endStack, capture, base)
  {
    var inner := Push(SavedAt(SplitPoint, if greedy then exit else body, p, stack, capture), base);
    assert Extends(inner, base) && Extends(base, base);
    if greedy {
      ExploresExit(prog, exit, p, stack, end, endStack, capture, base);
      ExploresSplit(prog, pc, nextFirst, offset, body, exit, qs, [p], p, stack, end, endStack, capture, inner, base);
    } else {
      ExploresExit(prog, exit, p, stack, end, endStack, capture, inner);
      ExploresSplit(prog, pc, nextFirst, offset, exit, body, [p], qs, p, stack, end, endStack, capture, inner, base);
    }
  }

  lemma ContinuesAbove(prog: Program, qs: seq<nat>, f: Explorer, mid: int, midStack: seq<nat>,
                       pc: int, stack: seq<nat>, capture: Captures, inner: SavedStack, base: SavedStack)
    requires Continues(prog, qs, f, mid, midStack, pc, stack, capture, base) && Extends(inner, base)
    ensures Continues(prog, qs, f, mid, midStack, pc, stack, capture, inner)
  {
    forall i, states | 0 <= i < |qs| && Extends(states, inner)
      ensures Explores(prog, At(mid, qs[i], midStack, capture, states), f(qs[i]), pc, stack, capture, states)
    {
      ExtendsTransitive(states, inner, base);
    }
  }

  /** One round: a split that leaves, or runs a body that explores `qs` and goes on from each. */
  lemma LoopRound(prog: Program, pc: int, nextFirst: bool, offset: int, body: int, mid: int, exit: int,
                  greedy: bool, qs: seq<nat>, f: Explorer, p: nat, stack: seq<nat>,
                  end: int, endStack: seq<nat>, capture: Captures, base: SavedStack)
    requires Holds(prog, pc, Split(nextFirst, offset)) && RoundTargets(pc, nextFirst, offset, body, exit, greedy)
    requires p <= |prog.subject.units|
    requires Lists(prog, body, p, stack, qs, mid, stack, capture, base)
    requires Continues(prog, qs, f, mid, stack, end, endStack, capture, base)
    requires Exits(prog, exit, p, stack, end, endStack, capture, base)
    ensures Explores(prog, At(pc, p, stack, capture, base), Choice(greedy, Bind(qs, f), p), end, endStack, capture,
                     base)
  {
    forall states | Extends(states, base)
      ensures Explores(prog, At(body, p, stack, capture, states), Bind(qs, f), end, endStack, capture, states)
    {
      ContinuesAbove(prog, qs, f, mid, stack, end, endStack, capture, states, base);
      ExploresBind(prog, At(body, p, stack, capture, states), qs, f, mid, stack, end, endStack, capture, states);
    }
    ExploresRound(prog, pc, nextFirst, offset, body, exit, greedy, Bind(qs, f), p, stack, end, endStack, capture, base);
  }

  lemma ExitsHere(prog: Program, pc: int, p: nat, stack: seq<nat>, capture: Captures, base: SavedStack)
    ensures Exits(prog, pc, p, stack, pc, stack, capture, base)
  {
    forall states | Extends(states, base)
      ensures Reaches(prog, At(pc, p, stack, capture, states), At(pc, p, stack, capture, states))
    {
      ReachesSelf(prog, At(pc, p, stack, capture, states));
    }
  }

  lemma ExitsByDrop(prog: Program, pc: int, next: int, k: nat, p: nat, stack: seq<nat>, capture: Captures,
                    base: SavedStack)
    requires Holds(prog, pc, IDrop) && next == pc + 1 && p <= |prog.subject.units|
    ensures Exits(prog, pc, p, stack + [k], next, stack, capture, base)
  {
    forall states | Extends(states, base)
      ensures Reaches(prog, At(pc, p, stack + [k], capture, states), At(next, p, stack, capture, states))
    {
      StepDrop(prog, pc, next, k, p, stack, capture, states);
    }
  }

  lemma ExploresFromGoto(prog: Program, pc: int, target: int, offset: int, p: nat, qs: seq<nat>, stack: seq<nat>,
                         end: int, endStack: seq<nat>, capture: Captures, base: SavedStack)
    requires Holds(prog, pc, IGoto(offset)) && target == pc + 1 + offset && p <= |prog.subject.units|
    requires Explores(prog, At(target, p, stack, capture, base), qs, end, endStack, capture, base)
    ensures Explores(prog, At(pc, p, stack, capture, base), qs, end, endStack, capture, base)
  {
    StepGoto(prog, pc, target, offset, p, stack, capture, base);
    ExploresAfter(prog, At(pc, p, stack, capture, base), At(target, p, stack, capture, base), qs,
                  end, endStack, capture, base);
  }

  /** At the loop instruction with a counter above one: another round. */
  lemma ExploresAgain(prog: Program, pc: int, drop: int, target: int, offset: int, k: nat, p: nat, qs: seq<nat>,
                      stack: seq<nat>, end: int, capture: Captures, base: SavedStack)
    requires Holds(prog, pc, ILoop(offset)) && drop == pc + 1 && target == drop + offset
    requires p <= |prog.subject.units| && k > 1
    requires Explores(prog, At(target, p, stack + [k - 1], capture, base), qs, end, stack, capture, base)
    ensures Explores(prog, At(pc, p, stack + [k], capture, base), qs, end, stack, capture, base)
  {
    StepLoop(prog, pc, drop, target, offset, k, p, stack, capture, base);
    ExploresAfter(prog, At(pc, p, stack + [k], capture, base), At(target, p, stack + [k - 1], capture, base), qs,
                  end, stack, capture, base);
  }

  /** At the loop instruction with a counter of one: drop it and leave. */
  lemma ExploresDone(prog: Program, pc: int, drop: int, target: int, offset: int, p: nat,
                     stack: seq<nat>, end: int, capture: Captures, base: SavedStack)
    requires Holds(prog, pc, ILoop(offset)) && drop == pc + 1 && target == drop + offset
    requires Holds(prog, drop, IDrop) && end == drop + 1 && p <= |prog.subject.units|
    ensures Explores(prog, At(pc, p, stack + [1], capture, base), [p], end, stack, capture, base)
  {
    StepLoop(prog, pc, drop, target, offset, 1, p, stack, capture, base);
    StepDrop(prog, drop, end, 0, p, stack, capture, base);
    ExploresExit(prog, drop, p, stack + [0], end, stack, capture, base);
    ExploresAfter(prog, At(pc, p, stack + [1], capture, base), At(drop, p, stack + [0], capture, base), [p],
                  end, stack, capture, base);
  }

  // ----- optional iterations -----

  /** Going on after the iterations of one round. */
  lemma MovedOn(t: Subject, backward: bool, atom: Explorer, max: nat, greedy: bool, p: nat, i: nat)
    requires Boundary(t, p) && Directed(t, backward, atom) && i < |Advancing(atom(p), p)|
    ensures var q := Advancing(atom(p), p)[i];
            && InDirection(t, backward, p, q) && q != p
            && Remaining(t, backward, q) < Remaining(t, backward, p)
            && AfterOptional(atom, backward, t, max, greedy, p)(q)
              == Repeat(atom, backward, t, 0, Decrement(max), greedy, q)
  {
    AdvancingInDirection(t, backward, p, atom(p));
  }

  lemma LastRound(t: Subject, backward: bool, atom: Explorer, greedy: bool, p: nat)
    requires Boundary(t, p)
    ensures Repeat(atom, backward, t, 0, 0, greedy, p) == [p]
  {
  }

  lemma OptionalIsChoice(t: Subject, backward: bool, atom: Explorer, max: nat, greedy: bool, p: nat)
    requires Boundary(t, p) && max > 0
    ensures Repeat(atom, backward, t, 0, max, greedy, p) ==
            Choice(greedy, Bind(Advancing(atom(p), p), AfterOptional(atom, backward, t, max, greedy, p)), p)
  {
  }

  lemma BodyLists(prog: Program, atom: Explorer, pc: int, to: int, p: nat, stack: seq<nat>, capture: Captures,
                  base: SavedStack)
    requires RunsBody(prog, atom, pc, to, capture) && Boundary(prog.subject, p)
    ensures Lists(prog, pc, p, stack, Advancing(atom(p), p), to, stack, capture, base)
  {
  }

  /** The endless loop: split, body, goto. */
  lemma {:induction false} EndlessLoop(prog: Program, atom: Explorer, backward: bool, greedy: bool,
                                       pc: int, body: int, mid: int, end: int,
                                       p: nat, stack: seq<nat>, capture: Captures, base: SavedStack)
    requires Boundary(prog.subject, p) && Directed(prog.subject, backward, atom)
    requires Holds(prog, pc, Split(greedy, end - body)) && body == pc + 1
    requires Holds(prog, mid, IGoto(pc - end)) && end == mid + 1
    requires RunsBody(prog, atom, body, mid, capture)
    ensures Explores(prog, At(pc, p, stack, capture, base),
                     Repeat(atom, backward, prog.subject, 0, INFINITY, greedy, p), end, stack, capture, base)
    decreases Remaining(prog.subject, backward, p), 1
  {
    var qs := Advancing(atom(p), p);
    var f := AfterOptional(atom, backward, prog.subject, INFINITY, greedy, p);
    EndlessContinues(prog, atom, backward, greedy, pc, body, mid, end, p, stack, capture, base);
    BodyLists(prog, atom, body, mid, p, stack, capture, base);
    ExitsHere(prog, end, p, stack, capture, base);
    LoopRound(prog, pc, greedy, end - body, body, mid, end, greedy, qs, f, p, stack, end, stack, capture, base);
    OptionalIsChoice(prog.subject, backward, atom, INFINITY, greedy, p);
  }

  lemma {:induction false} EndlessContinues(prog: Program, atom: Explorer, backward: bool, greedy: bool,
                                            pc: int, body: int, mid: int, end: int,
                                            p: nat, stack: seq<nat>, capture: Captures, base: SavedStack)
    requires Boundary(prog.subject, p) && Directed(prog.subject, backward, atom)
    requires Holds(prog, pc, Split(greedy, end - body)) && body == pc + 1
    requires Holds(prog, mid, IGoto(pc - end)) && end == mid + 1
    requires RunsBody(prog, atom, body, mid, capture)
    ensures Continues(prog, Advancing(atom(p), p), AfterOptional(atom, backward, prog.subject, INFINITY, greedy, p),
                      mid, stack, end, stack, capture, base)
    decreases Remaining(prog.subject, backward, p), 0
  {
    var qs := Advancing(atom(p), p);
    var f := AfterOptional(atom, backward, prog.subject, INFINITY, greedy, p);
    forall i, s | 0 <= i < |qs| && Extends(s, base)
      ensures Explores(prog, At(mid, qs[i], stack, capture, s), f(qs[i]), end, stack, capture, s)
    {
      MovedOn(prog.subject, backward, atom, INFINITY, greedy, p, i);
      EndlessLoop(prog, atom, backward, greedy, pc, body, mid, end, qs[i], stack, capture, s);
      ExploresFromGoto(prog, mid, pc, pc - end, qs[i], f(qs[i]), stack, end, stack, capture, s);
    }
  }

  /** `+` on an atom that always advances: the atom, then a split back to it. */
  lemma {:induction false} PlusLoop(prog: Program, atom: Explorer, backward: bool, greedy: bool,
                                    body: int, mid: int, end: int,
                                    p: nat, stack: seq<nat>, capture: Captures, base: SavedStack)
    requires Boundary(prog.subject, p) && Directed(prog.subject, backward, atom)
    requires Holds(prog, mid, Split(!greedy, body - end)) && end == mid + 1
    requires RunsBody(prog, atom, body, mid, capture)
    ensures Explores(prog, At(mid, p, stack, capture, base),
                     Repeat(atom, backward, prog.subject, 0, INFINITY, greedy, p), end, stack, capture, base)
    decreases Remaining(prog.subject, backward, p), 1
  {
    var qs := Advancing(atom(p), p);
    var f := AfterOptional(atom, backward, prog.subject, INFINITY, greedy, p);
    PlusContinues(prog, atom, backward, greedy, body, mid, end, p, stack, capture, base);
    BodyLists(prog, atom, body, mid, p, stack, capture, base);
    ExitsHere(prog, end, p, stack, capture, base);
    LoopRound(prog, mid, !greedy, body - end, body, mid, end, greedy, qs, f, p, stack, end, stack, capture, base);
    OptionalIsChoice(prog.subject, backward, atom, INFINITY, greedy, p);
  }

  lemma {:induction false} PlusContinues(prog: Program, atom: Explorer, backward: bool, greedy: bool,
                                         body: int, mid: int, end: int,
                                         p: nat, stack: seq<nat>, capture: Captures, base: SavedStack)
    requires Boundary(prog.subject, p) && Directed(prog.subject, backward, atom)
    requires Holds(prog, mid, Split(!greedy, body - end)) && end == mid + 1
    requires RunsBody(prog, atom, body, mid, capture)
    ensures Continues(prog, Advancing(atom(p), p), AfterOptional(atom, backward, prog.subject, INFINITY, greedy, p),
                      mid, stack, end, stack, capture, base)
    decreases Remaining(prog.subject, backward, p), 0
  {
    var qs := Advancing(atom(p), p);
    var f := AfterOptional(atom, backward, prog.subject, INFINITY, greedy, p);
    forall i, s | 0 <= i < |qs| && Extends(s, base)
      ensures Explores(prog, At(mid, qs[i], stack, capture, s), f(qs[i]), end, stack, capture, s)
    {
      MovedOn(prog.subject, backward, atom, INFINITY, greedy, p, i);
      PlusLoop(prog, atom, backward, greedy, body, mid, end, qs[i], stack, capture, s);
    }
  }

  /** The counted loop: split, body, loop, drop, with `k` rounds left on the stack. */
  lemma {:induction false} CountedLoop(prog: Program, atom: Explorer, backward: bool, greedy: bool,
                                       pc: int, body: int, mid: int, drop: int, end: int, k: nat,
                                       p: nat, stack: seq<nat>, capture: Captures, base: SavedStack)
    requires Boundary(prog.subject, p) && Directed(prog.subject, backward, atom) && 0 < k < INFINITY
    requires Holds(prog, pc, Split(greedy, drop - body)) && body == pc + 1
    requires Holds(prog, mid, ILoop(pc - drop)) && drop == mid + 1 && Holds(prog, drop, IDrop) && end == drop + 1
    requires RunsBody(prog, atom, body, mid, capture)
    ensures Explores(prog, At(pc, p, stack + [k], capture, base),
                     Repeat(atom, backward, prog.subject, 0, k, greedy, p), end, stack, capture, base)
    decreases k, 1
  {
    var qs := Advancing(atom(p), p);
    var f := AfterOptional(atom, backward, prog.subject, k, greedy, p);
    CountedContinues(prog, atom, backward, greedy, pc, body, mid, drop, end, k, p, stack, capture, base);
    BodyLists(prog, atom, body, mid, p, stack + [k], capture, base);
    ExitsByDrop(prog, drop, end, k, p, stack, capture, base);
    LoopRound(prog, pc, greedy, drop - body, body, mid, drop, greedy, qs, f, p, stack + [k], end, stack, capture, base);
    OptionalIsChoice(prog.subject, backward, atom, k, greedy, p);
  }

  lemma {:induction false} CountedContinues(prog: Program, atom: Explorer, backward: bool, greedy: bool,
                                            pc: int, body: int, mid: int, drop: int, end: int, k: nat,
                                            p: nat, stack: seq<nat>, capture: Captures, base: SavedStack)
    requires Boundary(prog.subject, p) && Directed(prog.subject, backward, atom) && 0 < k < INFINITY
    requires Holds(prog, pc, Split(greedy, drop - body)) && body == pc + 1
    requires Holds(prog, mid, ILoop(pc - drop)) && drop == mid + 1 && Holds(prog, drop, IDrop) && end == drop + 1
    requires RunsBody(prog, atom, body, mid, capture)
    ensures Continues(prog, Advancing(atom(p), p), AfterOptional(atom, backward, prog.subject, k, greedy, p),
                      mid, stack + [k], end, stack, capture, base)
    decreases k, 0
  {
    var qs := Advancing(atom(p), p);
    var f := AfterOptional(atom, backward, prog.subject, k, greedy, p);
    forall i, s | 0 <= i < |qs| && Extends(s, base)
      ensures Explores(prog, At(mid, qs[i], stack + [k], capture, s), f(qs[i]), end, stack, capture, s)
    {
      MovedOn(prog.subject, backward, atom, k, greedy, p, i);
      CountedNext(prog, atom, backward, greedy, pc, body, mid, drop, end, k, qs[i], stack, capture, s);
    }
  }

  lemma {:induction false} CountedNext(prog: Program, atom: Explorer, backward: bool, greedy: bool,
                                       pc: int, body: int, mid: int, drop: int, end: int, k: nat,
                                       q: nat, stack: seq<nat>, capture: Captures, base: SavedStack)
    requires Boundary(prog.subject, q) && Directed(prog.subject, backward, atom) && 0 < k < INFINITY
    requires Holds(prog, pc, Split(greedy, drop - body)) && body == pc + 1
    requires Holds(prog, mid, ILoop(pc - drop)) && drop == mid + 1 && Holds(prog, drop, IDrop) && end == drop + 1
    requires RunsBody(prog, atom, body, mid, capture)
    ensures Explores(prog, At(mid, q, stack + [k], capture, base),
                     Repeat(atom, backward, prog.subject, 0, k - 1, greedy, q), end, stack, capture, base)
    decreases k - 1, 2
  {
    if k > 1 {
      var rest := Repeat(atom, backward, prog.subject, 0, k - 1, greedy, q);
      CountedLoop(prog, atom, backward, greedy, pc, body, mid, drop, end, k - 1, q, stack, capture, base);
      ExploresAgain(prog, mid, drop, pc, pc - drop, k, q, rest, stack, end, capture, base);
    } else {
      LastRound(prog.subject, backward, atom, greedy, q);
      ExploresDone(prog, mid, drop, pc, pc - drop, q, stack, end, capture, base);
    }
  }

  /** `?`: a split around the body. */
  lemma OptionalBody(prog: Program, atom: Explorer, backward: bool, greedy: bool, pc: int, body: int, end: int,
                     p: nat, stack: seq<nat>, capture: Captures, base: SavedStack)
    requires Boundary(prog.subject, p) && Directed(prog.subject, backward, atom)
    requires Holds(prog, pc, Split(greedy, end - body)) && body == pc + 1
    requires RunsBody(prog, atom, body, end, capture)
    ensures Explores(prog, At(pc, p, stack, capture, base),
                     Repeat(atom, backward, prog.subject, 0, 1, greedy, p), end, stack, capture, base)
  {
    var qs := Advancing(atom(p), p);
    var f := AfterOptional(atom, backward, prog.subject, 1, greedy, p);
    forall i, s | 0 <= i < |qs| && Extends(s, base)
      ensures Explores(prog, At(end, qs[i], stack, capture, s), f(qs[i]), end, stack, capture, s)
    {
      MovedOn(prog.subject, backward, atom, 1, greedy, p, i);
      ExploresOne(prog, end, qs[i], stack, capture, s);
    }
    BodyLists(prog, atom, body, end, p, stack, capture, base);
    ExitsHere(prog, end, p, stack, capture, base);
    LoopRound(prog, pc, greedy, end - body, body, end, end, greedy, qs, f, p, stack, end, stack, capture, base);
    OptionalIsChoice(prog.subject, backward, atom, 1, greedy, p);
  }

  // ----- required iterations -----

  /** The ends of exactly `k` iterations, empty ones included. */
  function Power(atom: Explorer, t: Subject, k: nat, p: nat): (r: seq<nat>)
    decreases k, 0
  {
    if !Boundary(t, p) then []
    else if k == 0 then [p]
    else Bind(atom(p), PowerOf(atom, t, k - 1))
  }

  function PowerOf(atom: Explorer, t: Subject, k: nat): (r: Explorer)
    decreases k, 1
  {
    q => Power(atom, t, k, q)
  }

  /** The required loop: atom, loop, drop, with `k` rounds left on the stack. */
  lemma {:induction false} RequiredLoop(prog: Program, atom: Explorer, backward: bool,
                                        pc: int, mid: int, drop: int, end: int, k: nat,
                                        p: nat, stack: seq<nat>, capture: Captures, base: SavedStack)
    requires Boundary(prog.subject, p) && Directed(prog.subject, backward, atom) && 0 < k
    requires Holds(prog, mid, ILoop(pc - drop)) && drop == mid + 1 && Holds(prog, drop, IDrop) && end == drop + 1
    requires RunsAtom(prog, atom, pc, mid, capture)
    ensures Explores(prog, At(pc, p, stack + [k], capture, base),
                     Power(atom, prog.subject, k, p), end, stack, capture, base)
    decreases k
  {
    var qs := atom(p);
    var f := PowerOf(atom, prog.subject, k - 1);
    forall i, s | 0 <= i < |qs| && Extends(s, base)
      ensures Explores(prog, At(mid, qs[i], stack + [k], capture, s), f(qs[i]), end, stack, capture, s)
    {
      assert AllInDirection(prog.subject, backward, p, qs);
      assert InDirection(prog.subject, backward, p, qs[i]);
      if k > 1 {
        RequiredLoop(prog, atom, backward, pc, mid, drop, end, k - 1, qs[i], stack, capture, s);
        ExploresAgain(prog, mid, drop, pc, pc - drop, k, qs[i], f(qs[i]), stack, end, capture, s);
      } else {
        ExploresDone(prog, mid, drop, pc, pc - drop, qs[i], stack, end, capture, s);
      }
    }
    ExploresBind(prog, At(pc, p, stack + [k], capture, base), qs, f, mid, stack + [k], end, stack, capture, base);
  }
}
