/** The reference meaning of capture-free patterns: the continuation-passing matcher of
    section 22.2.2 of ECMA-262, and the ordered list of end positions it explores. */
module RegexSemantics {
  import opened RegexSyntax
  import opened Subject
  import CharSets

  datatype Option<+T> = None | Some(value: T)

  /** The set of characters a single-character term stands for. */
  predicate Accepts(test: CharTest, c: nat) {
    match test
    case One(d) => c == d
    case Dot(all) => all || !IsLineTerminator(c)
    case Class(points) => CharSets.Member(points, c)
  }

  /** `q` is a boundary at or past `p` in the direction of the match. */
  predicate InDirection(t: Subject, backward: bool, p: nat, q: nat) {
    Boundary(t, q) && (if backward then q <= p else p <= q)
  }

  /** How far the match can still go. */
  function Remaining(t: Subject, backward: bool, p: nat): (r: nat)
    requires p <= |t.units|
  {
    if backward then p else |t.units| - p
  }

  /** Reading one character from `p` in the direction of the match. */
  function ReadChar(test: CharTest, backward: bool, t: Subject, p: nat): (r: Option<nat>)
    requires Boundary(t, p)
    ensures r.Some? ==> InDirection(t, backward, p, r.value) && r.value != p
  {
    if backward then
      if p > 0 && Accepts(test, CharBefore(t, p)) then Some(PrevPos(t, p)) else None
    else
      if p < |t.units| && Accepts(test, CharAt(t, p)) then Some(NextPos(t, p)) else None
  }

  predicate Asserts(kind: Assertion, t: Subject, p: nat)
    requires p <= |t.units|
  {
    match kind
    case LineStart => AtLineStart(t, p)
    case LineEnd => AtLineEnd(t, p)
    case WordBoundary(negated) => AtWordBoundary(t, p) != negated
  }

  function Decrement(max: nat): (r: nat) {
    if max == INFINITY || max == 0 then max else max - 1
  }

  // ----- the matcher of ECMA-262 -----

  type Continuation = nat --> Option<nat>

  /** The continuation can be asked about every position the match can reach from `x`. */
  ghost predicate Ready(t: Subject, backward: bool, x: nat, c: Continuation) {
    forall y: nat {:trigger c.requires(y)} :: InDirection(t, backward, x, y) ==> c.requires(y)
  }

  /** The matcher a pattern compiles to in section 22.2.2: run from `x`, it answers what the
      continuation answers at the first end position the continuation accepts. */
  ghost function Matcher(n: Node, backward: bool, t: Subject, x: nat, c: Continuation): (r: Option<nat>)
    requires Boundary(t, x)
    requires Ready(t, backward, x, c)
    decreases n, 0, 0, 0
  {
    match n
    case Char(test) =>
      var y := ReadChar(test, backward, t, x);
      if y.Some? then c(y.value) else None
    case Assert(kind) => if Asserts(kind, t, x) then c(x) else None
    case Empty => c(x)
    case Seq(l, r) =>
      if backward then
        Matcher(r, backward, t, x,
                y requires InDirection(t, backward, x, y) => Matcher(l, backward, t, y, c))
      else
        Matcher(l, backward, t, x,
                y requires InDirection(t, backward, x, y) => Matcher(r, backward, t, y, c))
    case Alt(l, r) =>
      var first := Matcher(l, backward, t, x, c);
      if first.Some? then first else Matcher(r, backward, t, x, c)
    case Look(negated, back, b) =>
      var inner := Matcher(b, back, t, x, y => Some(y));
      if inner.Some? != negated then c(x) else None
    case Quant(a, min, max, greedy) => RepeatMatcher(a, backward, t, min, max, greedy, x, c)
    case Capture(_, b) => Matcher(b, backward, t, x, c)
  }

  ghost function RepeatMatcher(a: Node, backward: bool, t: Subject, min: nat, max: nat, greedy: bool,
                               x: nat, c: Continuation): (r: Option<nat>)
    requires Boundary(t, x)
    requires Ready(t, backward, x, c)
    decreases a, 1, min, Remaining(t, backward, x)
  {
    if max == 0 then c(x)
    else
      var d: Continuation :=
        y requires InDirection(t, backward, x, y) =>
          if min == 0 && y == x then None
          else RepeatMatcher(a, backward, t, if min == 0 then 0 else min - 1, Decrement(max), greedy, y, c);
      if min != 0 then Matcher(a, backward, t, x, d)
      else if !greedy then
        var z := c(x);
        if z.Some? then z else Matcher(a, backward, t, x, d)
      else
        var z := Matcher(a, backward, t, x, d);
        if z.Some? then z else c(x)
  }

  // ----- the end positions a match explores, in order -----

  function Bind(qs: seq<nat>, f: nat -> seq<nat>): (r: seq<nat>) {
    if qs == [] then [] else f(qs[0]) + Bind(qs[1..], f)
  }

  /** The iterations that moved away from `p`. */
  function Advancing(qs: seq<nat>, p: nat): (r: seq<nat>) {
    if qs == [] then []
    else if qs[0] == p then Advancing(qs[1..], p)
    else [qs[0]] + Advancing(qs[1..], p)
  }

  /** What a piece of pattern does from a given position: its end positions, first choice first. */
  type Explorer = nat -> seq<nat>

  /** Every end position of a match of `n` from `p`, first choice first. */
  function Ends(n: Node, backward: bool, t: Subject, p: nat): (r: seq<nat>)
    decreases n, 0
  {
    if !Boundary(t, p) then []
    else
      match n
      case Char(test) =>
        var q := ReadChar(test, backward, t, p);
        if q.Some? then [q.value] else []
      case Assert(kind) => if Asserts(kind, t, p) then [p] else []
      case Empty => [p]
      case Seq(l, r) =>
        if backward then Bind(Ends(r, backward, t, p), EndsOf(l, backward, t))
        else Bind(Ends(l, backward, t, p), EndsOf(r, backward, t))
      case Alt(l, r) => Ends(l, backward, t, p) + Ends(r, backward, t, p)
      case Look(negated, back, b) => if (Ends(b, back, t, p) != []) != negated then [p] else []
      case Quant(a, min, max, greedy) => Repeat(EndsOf(a, backward, t), backward, t, min, max, greedy, p)
      case Capture(_, b) => Ends(b, backward, t, p)
  }

  function EndsOf(n: Node, backward: bool, t: Subject): (r: Explorer)
    decreases n, 1
  {
    p => Ends(n, backward, t, p)
  }

  /** Between `min` and `max` iterations of an atom; past `min`, an iteration has to move. */
  function Repeat(atom: Explorer, backward: bool, t: Subject, min: nat, max: nat, greedy: bool, p: nat): (r: seq<nat>)
    decreases min, if p <= |t.units| then Remaining(t, backward, p) else 0, 1
  {
    if !Boundary(t, p) then []
    else if max == 0 then [p]
    else if min > 0 then Bind(atom(p), AfterRequired(atom, backward, t, min, max, greedy))
    else
      var more := Bind(Advancing(atom(p), p), AfterOptional(atom, backward, t, max, greedy, p));
      if greedy then more + [p] else [p] + more
  }

  function AfterRequired(atom: Explorer, backward: bool, t: Subject, min: nat, max: nat, greedy: bool): (r: Explorer)
    requires min > 0
    decreases min - 1, |t.units| + 1
  {
    q => Repeat(atom, backward, t, min - 1, Decrement(max), greedy, q)
  }

  function AfterOptional(atom: Explorer, backward: bool, t: Subject, max: nat, greedy: bool, p: nat): (r: Explorer)
    requires Boundary(t, p)
    decreases 0, Remaining(t, backward, p), 0
  {
    q => if InDirection(t, backward, p, q) && q != p
         then Repeat(atom, backward, t, 0, Decrement(max), greedy, q) else []
  }

  ghost predicate AllInDirection(t: Subject, backward: bool, p: nat, qs: seq<nat>) {
    forall i :: 0 <= i < |qs| ==> InDirection(t, backward, p, qs[i])
  }

  /** The explorer goes from boundary to boundary, in the direction of the match. */
  ghost predicate Directed(t: Subject, backward: bool, e: Explorer) {
    forall p: nat {:trigger e(p)} :: AllInDirection(t, backward, p, e(p))
  }

  lemma {:induction false} BindInDirection(t: Subject, backward: bool, p: nat, qs: seq<nat>, f: Explorer)
    requires AllInDirection(t, backward, p, qs) && Directed(t, backward, f)
    ensures AllInDirection(t, backward, p, Bind(qs, f))
  {
    if qs != [] {
      BindInDirection(t, backward, p, qs[1..], f);
      assert AllInDirection(t, backward, qs[0], f(qs[0]));
    }
  }

  lemma {:induction false} AdvancingIn(qs: seq<nat>, p: nat)
    ensures forall q :: q in Advancing(qs, p) <==> q in qs && q != p
  {
    if qs != [] { AdvancingIn(qs[1..], p); }
  }

  lemma AdvancingInDirection(t: Subject, backward: bool, p: nat, qs: seq<nat>)
    requires AllInDirection(t, backward, p, qs)
    ensures AllInDirection(t, backward, p, Advancing(qs, p)) && p !in Advancing(qs, p)
  {
    AdvancingIn(qs, p);
    forall i | 0 <= i < |Advancing(qs, p)| ensures InDirection(t, backward, p, Advancing(qs, p)[i]) {
      assert Advancing(qs, p)[i] in qs;
    }
  }

  /** A match from a boundary ends on a boundary, on the proper side. */
  lemma {:induction false} EndsInDirection(n: Node, backward: bool, t: Subject, p: nat)
    ensures AllInDirection(t, backward, p, Ends(n, backward, t, p))
    decreases n, 0
  {
    if Boundary(t, p) {
      match n
      case Seq(l, r) =>
        var (m, k) := if backward then (r, l) else (l, r);
        EndsInDirection(m, backward, t, p);
        EndsDirected(k, backward, t);
        BindInDirection(t, backward, p, Ends(m, backward, t, p), EndsOf(k, backward, t));
      case Alt(l, r) =>
        EndsInDirection(l, backward, t, p);
        EndsInDirection(r, backward, t, p);
      case Quant(a, min, max, greedy) =>
        EndsDirected(a, backward, t);
        RepeatInDirection(EndsOf(a, backward, t), backward, t, min, max, greedy, p);
      case Capture(_, b) => EndsInDirection(b, backward, t, p);
      case _ =>
    }
  }

  lemma {:induction false} EndsDirected(n: Node, backward: bool, t: Subject)
    ensures Directed(t, backward, EndsOf(n, backward, t))
    decreases n, 1
  {
    forall p: nat ensures AllInDirection(t, backward, p, EndsOf(n, backward, t)(p)) {
      EndsInDirection(n, backward, t, p);
    }
  }

  lemma {:induction false} RepeatInDirection(atom: Explorer, backward: bool, t: Subject, min: nat, max: nat,
                                             greedy: bool, p: nat)
    requires Directed(t, backward, atom)
    ensures AllInDirection(t, backward, p, Repeat(atom, backward, t, min, max, greedy, p))
    decreases min, if p <= |t.units| then Remaining(t, backward, p) else 0
  {
    if Boundary(t, p) && max > 0 {
      assert AllInDirection(t, backward, p, atom(p));
      if min > 0 {
        var f := AfterRequired(atom, backward, t, min, max, greedy);
        forall q: nat ensures AllInDirection(t, backward, q, f(q)) {
          RepeatInDirection(atom, backward, t, min - 1, Decrement(max), greedy, q);
        }
        BindInDirection(t, backward, p, atom(p), f);
      } else {
        var f := AfterOptional(atom, backward, t, max, greedy, p);
        forall q: nat ensures AllInDirection(t, backward, q, f(q)) {
          if InDirection(t, backward, p, q) && q != p {
            RepeatInDirection(atom, backward, t, 0, Decrement(max), greedy, q);
          }
        }
        AdvancingInDirection(t, backward, p, atom(p));
        BindInDirection(t, backward, p, Advancing(atom(p), p), f);
      }
    }
  }

  // ----- the matcher explores exactly these positions -----

  ghost predicate AllReady(qs: seq<nat>, c: Continuation) {
    forall i :: 0 <= i < |qs| ==> c.requires(qs[i])
  }

  /** The answer of the continuation at the first position it accepts. */
  ghost function FirstAccepted(qs: seq<nat>, c: Continuation): (r: Option<nat>)
    requires AllReady(qs, c)
  {
    if qs == [] then None
    else
      var z := c(qs[0]);
      if z.Some? then z else FirstAccepted(qs[1..], c)
  }

  lemma {:induction false} FirstAcceptedConcat(qs: seq<nat>, rs: seq<nat>, c: Continuation)
    requires AllReady(qs, c) && AllReady(rs, c)
    ensures AllReady(qs + rs, c)
    ensures FirstAccepted(qs + rs, c) ==
            if FirstAccepted(qs, c).Some? then FirstAccepted(qs, c) else FirstAccepted(rs, c)
  {
    if qs == [] {
      assert qs + rs == rs;
    } else {
      assert (qs + rs)[1..] == qs[1..] + rs;
      FirstAcceptedConcat(qs[1..], rs, c);
    }
  }

  lemma {:induction false} FirstAcceptedBind(qs: seq<nat>, f: Explorer, c: Continuation, d: Continuation)
    requires AllReady(qs, d)
    requires forall i :: 0 <= i < |qs| ==> AllReady(f(qs[i]), c) && d(qs[i]) == FirstAccepted(f(qs[i]), c)
    ensures AllReady(Bind(qs, f), c)
    ensures FirstAccepted(Bind(qs, f), c) == FirstAccepted(qs, d)
  {
    if qs != [] {
      FirstAcceptedBind(qs[1..], f, c, d);
      FirstAcceptedConcat(f(qs[0]), Bind(qs[1..], f), c);
    }
  }

  /** A continuation that rejects `p` may as well not be asked about it. */
  lemma {:induction false} FirstAcceptedAdvancing(qs: seq<nat>, p: nat, d: Continuation)
    requires AllReady(qs, d)
    requires p in qs ==> d(p) == None
    ensures AllReady(Advancing(qs, p), d)
    ensures FirstAccepted(qs, d) == FirstAccepted(Advancing(qs, p), d)
  {
    if qs != [] {
      FirstAcceptedAdvancing(qs[1..], p, d);
      AdvancingIn(qs[1..], p);
    }
  }

  lemma DirectedReady(t: Subject, backward: bool, x: nat, qs: seq<nat>, c: Continuation)
    requires AllInDirection(t, backward, x, qs) && Ready(t, backward, x, c)
    ensures AllReady(qs, c)
  {
  }

  lemma ReadyFurther(t: Subject, backward: bool, x: nat, y: nat, c: Continuation)
    requires Ready(t, backward, x, c) && InDirection(t, backward, x, y)
    ensures Ready(t, backward, y, c)
  {
  }

  /** The matcher of ECMA-262 answers what its continuation answers at the first listed end
      position that the continuation accepts. */
  lemma {:induction false} MatcherIsFirstAccepted(n: Node, backward: bool, t: Subject, x: nat, c: Continuation)
    requires Boundary(t, x) && Ready(t, backward, x, c)
    ensures AllReady(Ends(n, backward, t, x), c)
    ensures Matcher(n, backward, t, x, c) == FirstAccepted(Ends(n, backward, t, x), c)
    decreases n, 0, 1, 0
  {
    EndsInDirection(n, backward, t, x);
    DirectedReady(t, backward, x, Ends(n, backward, t, x), c);
    match n
    case Seq(l, r) =>
      if backward {
        SequenceIsFirstAccepted(n, r, l, backward, t, x, c,
          y requires InDirection(t, backward, x, y) => Matcher(l, backward, t, y, c));
      } else {
        SequenceIsFirstAccepted(n, l, r, backward, t, x, c,
          y requires InDirection(t, backward, x, y) => Matcher(r, backward, t, y, c));
      }
    case Alt(l, r) =>
      MatcherIsFirstAccepted(l, backward, t, x, c);
      MatcherIsFirstAccepted(r, backward, t, x, c);
      FirstAcceptedConcat(Ends(l, backward, t, x), Ends(r, backward, t, x), c);
    case Look(negated, back, b) =>
      MatcherIsFirstAccepted(b, back, t, x, y => Some(y));
    case Quant(a, min, max, greedy) => RepeatIsFirstAccepted(a, backward, t, min, max, greedy, x, c);
    case Capture(_, b) => MatcherIsFirstAccepted(b, backward, t, x, c);
    case _ =>
  }

  lemma {:induction false} SequenceIsFirstAccepted(
      n: Node, m: Node, k: Node, backward: bool, t: Subject, x: nat, c: Continuation, d: Continuation)
    requires n.Seq? && m in {n.left, n.right} && k in {n.left, n.right}
    requires Boundary(t, x) && Ready(t, backward, x, c) && Ready(t, backward, x, d)
    requires forall y: nat {:trigger d(y)} :: InDirection(t, backward, x, y) ==> d(y) == Matcher(k, backward, t, y, c)
    ensures AllReady(Bind(Ends(m, backward, t, x), EndsOf(k, backward, t)), c)
    ensures Matcher(m, backward, t, x, d)
            == FirstAccepted(Bind(Ends(m, backward, t, x), EndsOf(k, backward, t)), c)
    decreases n, 0, 0, 0
  {
    var qs := Ends(m, backward, t, x);
    var f := EndsOf(k, backward, t);
    MatcherIsFirstAccepted(m, backward, t, x, d);
    EndsInDirection(m, backward, t, x);
    forall i | 0 <= i < |qs| ensures AllReady(f(qs[i]), c) && d(qs[i]) == FirstAccepted(f(qs[i]), c) {
      ReadyFurther(t, backward, x, qs[i], c);
      MatcherIsFirstAccepted(k, backward, t, qs[i], c);
    }
    FirstAcceptedBind(qs, f, c, d);
  }

  lemma {:induction false} RepeatIsFirstAccepted(
      a: Node, backward: bool, t: Subject, min: nat, max: nat, greedy: bool, x: nat, c: Continuation)
    requires Boundary(t, x) && Ready(t, backward, x, c)
    ensures AllReady(Repeat(EndsOf(a, backward, t), backward, t, min, max, greedy, x), c)
    ensures RepeatMatcher(a, backward, t, min, max, greedy, x, c)
            == FirstAccepted(Repeat(EndsOf(a, backward, t), backward, t, min, max, greedy, x), c)
    decreases a, 1, min, Remaining(t, backward, x)
  {
    if max > 0 {
      var d: Continuation :=
        y requires InDirection(t, backward, x, y) =>
          if min == 0 && y == x then None
          else RepeatMatcher(a, backward, t, if min == 0 then 0 else min - 1, Decrement(max), greedy, y, c);
      MatcherIsFirstAccepted(a, backward, t, x, d);
      if min > 0 {
        RequiredIsFirstAccepted(a, backward, t, min, max, greedy, x, c, d);
      } else {
        OptionalIsFirstAccepted(a, backward, t, max, greedy, x, c, d);
      }
    }
  }

  lemma {:induction false} RequiredIsFirstAccepted(
      a: Node, backward: bool, t: Subject, min: nat, max: nat, greedy: bool, x: nat, c: Continuation, d: Continuation)
    requires Boundary(t, x) && Ready(t, backward, x, c) && Ready(t, backward, x, d) && max > 0 && min > 0
    requires forall y: nat {:trigger d(y)} :: InDirection(t, backward, x, y) ==>
               d(y) == RepeatMatcher(a, backward, t, min - 1, Decrement(max), greedy, y, c)
    ensures AllReady(Ends(a, backward, t, x), d)
    ensures AllReady(Repeat(EndsOf(a, backward, t), backward, t, min, max, greedy, x), c)
    ensures FirstAccepted(Ends(a, backward, t, x), d)
            == FirstAccepted(Repeat(EndsOf(a, backward, t), backward, t, min, max, greedy, x), c)
    decreases a, 1, min, Remaining(t, backward, x), 0
  {
    var qs := Ends(a, backward, t, x);
    var f := AfterRequired(EndsOf(a, backward, t), backward, t, min, max, greedy);
    EndsInDirection(a, backward, t, x);
    DirectedReady(t, backward, x, qs, d);
    forall i | 0 <= i < |qs| ensures AllReady(f(qs[i]), c) && d(qs[i]) == FirstAccepted(f(qs[i]), c) {
      ReadyFurther(t, backward, x, qs[i], c);
      RepeatIsFirstAccepted(a, backward, t, min - 1, Decrement(max), greedy, qs[i], c);
    }
    FirstAcceptedBind(qs, f, c, d);
  }

  lemma {:induction false} OptionalIsFirstAccepted(
      a: Node, backward: bool, t: Subject, max: nat, greedy: bool, x: nat, c: Continuation, d: Continuation)
    requires Boundary(t, x) && Ready(t, backward, x, c) && Ready(t, backward, x, d) && max > 0
    requires forall y: nat {:trigger d(y)} :: InDirection(t, backward, x, y) ==>
               d(y) == if y == x then None else RepeatMatcher(a, backward, t, 0, Decrement(max), greedy, y, c)
    ensures AllReady(Ends(a, backward, t, x), d)
    ensures AllReady(Repeat(EndsOf(a, backward, t), backward, t, 0, max, greedy, x), c)
    ensures FirstAccepted(Repeat(EndsOf(a, backward, t), backward, t, 0, max, greedy, x), c)
            == var z := FirstAccepted(Ends(a, backward, t, x), d);
               if greedy then if z.Some? then z else c(x)
               else if c(x).Some? then c(x) else z
    decreases a, 1, 0, Remaining(t, backward, x), 0
  {
    var qs := Ends(a, backward, t, x);
    var f := AfterOptional(EndsOf(a, backward, t), backward, t, max, greedy, x);
    var rs := Advancing(qs, x);
    EndsInDirection(a, backward, t, x);
    DirectedReady(t, backward, x, qs, d);
    FirstAcceptedAdvancing(qs, x, d);
    AdvancingInDirection(t, backward, x, qs);
    forall i | 0 <= i < |rs| ensures AllReady(f(rs[i]), c) && d(rs[i]) == FirstAccepted(f(rs[i]), c) {
      ReadyFurther(t, backward, x, rs[i], c);
      RepeatIsFirstAccepted(a, backward, t, 0, Decrement(max), greedy, rs[i], c);
    }
    FirstAcceptedBind(rs, f, c, d);
    FirstAcceptedConcat(Bind(rs, f), [x], c);
    FirstAcceptedConcat([x], Bind(rs, f), c);
  }
}
