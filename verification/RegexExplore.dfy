/** How a piece of code explores its end positions on the machine. */
module RegexExplore {
  import opened RegexSemantics
  import opened RegexVm

  /** Only choices, no enclosing lookaround, lie above `base`. */
  ghost predicate Extends(states: SavedStack, base: SavedStack) {
    states == base || (states.Push? && !states.top.kind.LookPoint? && Extends(states.below, base))
  }

  function At(pc: int, cptr: nat, stack: seq<nat>, capture: Captures, states: SavedStack): (r: Config) {
    Run(pc, cptr, stack, capture, states, None)
  }

  /** Where the machine resumes to look for position `i`. */
  function Resume(c: Config, trace: seq<SavedStack>, i: nat): (r: Config)
    requires i <= |trace|
  {
    if i == 0 then c else Fail(trace[i - 1])
  }

  /** It then arrives at `pc` with position `i`, choices `trace[i]` pending above `base`. */
  ghost predicate Leg(prog: Program, c: Config, qs: seq<nat>, pc: int, stack: seq<nat>, capture: Captures,
                      base: SavedStack, trace: seq<SavedStack>, i: nat)
    requires |trace| == |qs| && i < |qs|
  {
    && Extends(trace[i], base)
    && Reaches(prog, Resume(c, trace, i), At(pc, qs[i], stack, capture, trace[i]))
  }

  ghost predicate ExploresVia(prog: Program, c: Config, qs: seq<nat>, pc: int, stack: seq<nat>, capture: Captures,
                              base: SavedStack, trace: seq<SavedStack>)
  {
    && |trace| == |qs|
    && (forall i: nat {:trigger Leg(prog, c, qs, pc, stack, capture, base, trace, i)} ::
          i < |qs| ==> Leg(prog, c, qs, pc, stack, capture, base, trace, i))
    && Reaches(prog, Resume(c, trace, |qs|), Fail(base))
  }

  /** From `c` the machine arrives at `pc` with the first of `qs`; failing there makes it arrive
      with the second, and so on; failing after the last leaves just the states in `base`. */
  ghost predicate Explores(prog: Program, c: Config, qs: seq<nat>, pc: int, stack: seq<nat>, capture: Captures,
                           base: SavedStack)
  {
    exists trace :: ExploresVia(prog, c, qs, pc, stack, capture, base, trace)
  }

  lemma ExploresAfter(prog: Program, c: Config, d: Config, qs: seq<nat>, pc: int, stack: seq<nat>, capture: Captures,
                      base: SavedStack)
    requires Reaches(prog, c, d) && Explores(prog, d, qs, pc, stack, capture, base)
    ensures Explores(prog, c, qs, pc, stack, capture, base)
  {
    var trace :| ExploresVia(prog, d, qs, pc, stack, capture, base, trace);
    if qs == [] {
      ReachesTransitive(prog, c, d, Fail(base));
    } else {
      forall i: nat | i < |qs| ensures Leg(prog, c, qs, pc, stack, capture, base, trace, i) {
        assert Leg(prog, d, qs, pc, stack, capture, base, trace, i);
        if i == 0 { ReachesTransitive(prog, c, d, At(pc, qs[0], stack, capture, trace[0])); }
      }
    }
    assert ExploresVia(prog, c, qs, pc, stack, capture, base, trace);
  }

  lemma ExploresCons(prog: Program, c: Config, q: nat, rest: seq<nat>, pc: int, stack: seq<nat>, capture: Captures,
                     states: SavedStack, base: SavedStack)
    requires Extends(states, base)
    requires Reaches(prog, c, At(pc, q, stack, capture, states))
    requires Explores(prog, Fail(states), rest, pc, stack, capture, base)
    ensures Explores(prog, c, [q] + rest, pc, stack, capture, base)
  {
    var tail :| ExploresVia(prog, Fail(states), rest, pc, stack, capture, base, tail);
    forall i: nat | i < |[q] + rest|
      ensures Leg(prog, c, [q] + rest, pc, stack, capture, base, [states] + tail, i)
    {
      ConsLeg(prog, c, q, rest, pc, stack, capture, states, base, tail, i);
    }
    ResumeShift(c, states, tail, |rest|);
    assert ExploresVia(prog, c, [q] + rest, pc, stack, capture, base, [states] + tail);
  }

  lemma ConsLeg(prog: Program, c: Config, q: nat, rest: seq<nat>, pc: int, stack: seq<nat>, capture: Captures,
                states: SavedStack, base: SavedStack, tail: seq<SavedStack>, i: nat)
    requires i <= |rest| && Extends(states, base)
    requires Reaches(prog, c, At(pc, q, stack, capture, states))
    requires ExploresVia(prog, Fail(states), rest, pc, stack, capture, base, tail)
    ensures Leg(prog, c, [q] + rest, pc, stack, capture, base, [states] + tail, i)
  {
    if i > 0 {
      assert Leg(prog, Fail(states), rest, pc, stack, capture, base, tail, i - 1);
      ResumeShift(c, states, tail, i - 1);
    }
  }

  lemma ResumeShift(c: Config, states: SavedStack, tail: seq<SavedStack>, i: nat)
    requires i <= |tail|
    ensures Resume(c, [states] + tail, i + 1) == Resume(Fail(states), tail, i)
  {
  }

  lemma ExploresUncons(prog: Program, c: Config, qs: seq<nat>, pc: int, stack: seq<nat>, capture: Captures,
                       base: SavedStack) returns (states: SavedStack)
    requires qs != [] && Explores(prog, c, qs, pc, stack, capture, base)
    ensures Extends(states, base)
    ensures Reaches(prog, c, At(pc, qs[0], stack, capture, states))
    ensures Explores(prog, Fail(states), qs[1..], pc, stack, capture, base)
  {
    var trace :| ExploresVia(prog, c, qs, pc, stack, capture, base, trace);
    assert Leg(prog, c, qs, pc, stack, capture, base, trace, 0);
    states := trace[0];
    var rest, tail := qs[1..], trace[1..];
    forall i: nat | i < |rest| ensures Leg(prog, Fail(states), rest, pc, stack, capture, base, tail, i) {
      assert Leg(prog, c, qs, pc, stack, capture, base, trace, i + 1);
    }
    assert ExploresVia(prog, Fail(states), rest, pc, stack, capture, base, tail);
  }

  lemma ExploresNone(prog: Program, pc: int, stack: seq<nat>, capture: Captures, base: SavedStack)
    ensures Explores(prog, Fail(base), [], pc, stack, capture, base)
  {
    ReachesSelf(prog, Fail(base));
    assert ExploresVia(prog, Fail(base), [], pc, stack, capture, base, []);
  }

  lemma ExploresOne(prog: Program, pc: int, q: nat, stack: seq<nat>, capture: Captures, base: SavedStack)
    ensures Explores(prog, At(pc, q, stack, capture, base), [q], pc, stack, capture, base)
  {
    ReachesSelf(prog, At(pc, q, stack, capture, base));
    assert Extends(base, base);
    ExploresNone(prog, pc, stack, capture, base);
    ExploresCons(prog, At(pc, q, stack, capture, base), q, [], pc, stack, capture, base, base);
    assert [q] + [] == [q];
  }

  lemma ExploresFailure(prog: Program, c: Config, pc: int, stack: seq<nat>, capture: Captures, base: SavedStack)
    requires Explores(prog, c, [], pc, stack, capture, base)
    ensures Reaches(prog, c, Fail(base))
  {
  }

  /** Exploring `qs` over some extra choices, then the rest once those are used up. */
  lemma {:induction false} ExploresConcat(prog: Program, c: Config, qs: seq<nat>, rs: seq<nat>, pc: int,
                                          stack: seq<nat>, capture: Captures, inner: SavedStack, base: SavedStack)
    requires Extends(inner, base)
    requires Explores(prog, c, qs, pc, stack, capture, inner)
    requires Explores(prog, Fail(inner), rs, pc, stack, capture, base)
    ensures Explores(prog, c, qs + rs, pc, stack, capture, base)
    decreases |qs|
  {
    if qs == [] {
      assert qs + rs == rs;
      ExploresFailure(prog, c, pc, stack, capture, inner);
      ExploresAfter(prog, c, Fail(inner), rs, pc, stack, capture, base);
    } else {
      var states := ExploresUncons(prog, c, qs, pc, stack, capture, inner);
      ExploresConcat(prog, Fail(states), qs[1..], rs, pc, stack, capture, inner, base);
      ExtendsTransitive(states, inner, base);
      ExploresCons(prog, c, qs[0], qs[1..] + rs, pc, stack, capture, states, base);
      ConcatHead(qs, rs);
    }
  }

  lemma ConcatHead(qs: seq<nat>, rs: seq<nat>)
    requires qs != []
    ensures [qs[0]] + (qs[1..] + rs) == qs + rs
  {
  }

  lemma {:induction false} ExtendsTransitive(a: SavedStack, b: SavedStack, c: SavedStack)
    requires Extends(a, b) && Extends(b, c)
    ensures Extends(a, c)
  {
    if a != b { ExtendsTransitive(a.below, b, c); }
  }

  /** Whatever choices are pending, continuing from each of `qs` at `mid` explores `f` of it. */
  ghost predicate Continues(prog: Program, qs: seq<nat>, f: nat -> seq<nat>, mid: int, midStack: seq<nat>,
                            pc: int, stack: seq<nat>, capture: Captures, base: SavedStack)
  {
    forall i, states {:trigger At(mid, qs[i], midStack, capture, states)} ::
      0 <= i < |qs| && Extends(states, base) ==>
        Explores(prog, At(mid, qs[i], midStack, capture, states), f(qs[i]), pc, stack, capture, states)
  }

  lemma {:induction false} ExploresBind(prog: Program, c: Config, qs: seq<nat>, f: nat -> seq<nat>,
                                        mid: int, midStack: seq<nat>, pc: int, stack: seq<nat>,
                                        capture: Captures, base: SavedStack)
    requires Explores(prog, c, qs, mid, midStack, capture, base)
    requires Continues(prog, qs, f, mid, midStack, pc, stack, capture, base)
    ensures Explores(prog, c, Bind(qs, f), pc, stack, capture, base)
    decreases |qs|
  {
    if qs == [] {
      ExploresFailure(prog, c, mid, midStack, capture, base);
      ExploresNone(prog, pc, stack, capture, base);
      ExploresAfter(prog, c, Fail(base), [], pc, stack, capture, base);
    } else {
      var states := ExploresUncons(prog, c, qs, mid, midStack, capture, base);
      forall i, s | 0 <= i < |qs[1..]| && Extends(s, base)
        ensures Explores(prog, At(mid, qs[1..][i], midStack, capture, s), f(qs[1..][i]), pc, stack, capture, s)
      {
        assert qs[1..][i] == qs[i + 1];
      }
      ExploresBind(prog, Fail(states), qs[1..], f, mid, midStack, pc, stack, capture, base);
      ExploresAfter(prog, c, At(mid, qs[0], midStack, capture, states), f(qs[0]), pc, stack, capture, states);
      ExploresConcat(prog, c, f(qs[0]), Bind(qs[1..], f), pc, stack, capture, states, base);
    }
  }
}
