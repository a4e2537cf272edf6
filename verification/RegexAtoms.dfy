/** What the compiler's two scans of an atom's code, "always advances" and "simple", imply
    about the end positions of the atom. */
module RegexAtoms {
  import opened RegexSyntax
  import opened RegexSemantics
  import opened RegexVm
  import opened Subject
  import RegexRanges

  predicate ValidSubject(t: Subject) {
    forall i :: 0 <= i < |t.units| ==> t.units[i] < 0x10000
  }

  predicate HasRead(code: seq<Instr>) {
    exists i :: 0 <= i < |code| && code[i].IRead?
  }

  lemma {:induction false} InBind(qs: seq<nat>, f: nat -> seq<nat>, r: nat) returns (i: nat)
    requires r in Bind(qs, f)
    ensures i < |qs| && r in f(qs[i])
  {
    if r in f(qs[0]) {
      i := 0;
    } else {
      var j := InBind(qs[1..], f, r);
      i := j + 1;
    }
  }

  lemma {:induction false} BindSingletons(qs: seq<nat>, f: nat -> seq<nat>)
    requires forall i :: 0 <= i < |qs| ==> f(qs[i]) == [qs[i]]
    ensures Bind(qs, f) == qs
  {
    if qs != [] { BindSingletons(qs[1..], f); }
  }

  /** Repeating exactly once is the atom itself. */
  lemma RepeatOnce(a: Node, backward: bool, t: Subject, greedy: bool, p: nat)
    requires Boundary(t, p)
    ensures Repeat(EndsOf(a, backward, t), backward, t, 1, 1, greedy, p) == Ends(a, backward, t, p)
  {
    var qs := Ends(a, backward, t, p);
    EndsInDirection(a, backward, t, p);
    var f := AfterRequired(EndsOf(a, backward, t), backward, t, 1, 1, greedy);
    forall i | 0 <= i < |qs| ensures f(qs[i]) == [qs[i]] {
      assert InDirection(t, backward, p, qs[i]);
      RepeatNone(EndsOf(a, backward, t), backward, t, greedy, qs[i]);
    }
    BindSingletons(qs, f);
  }

  lemma RepeatNone(atom: Explorer, backward: bool, t: Subject, greedy: bool, p: nat)
    requires Boundary(t, p)
    ensures AfterRequired(atom, backward, t, 1, 1, greedy)(p) == [p]
  {
    assert AfterRequired(atom, backward, t, 1, 1, greedy)(p) == Repeat(atom, backward, t, 0, Decrement(1), greedy, p);
  }

  /** Straight-line code of a quantifier: none at all, or just the atom. */
  lemma StraightQuant(atom: seq<Instr>, min: nat, max: nat, greedy: bool)
    requires min <= max <= INFINITY
    ensures var code := QuantCode(atom, min, max, greedy);
            Predictable(code) || SimpleCount(code) >= 0 ==>
              (min == max == 0 && code == []) || (min == max == 1 && code == atom)
  {
    var code := QuantCode(atom, min, max, greedy);
    if min == max == 0 {
    } else if greedy && SimpleCount(atom) > 0 {
      assert !Predictable(code) by { assert code[0].ISimpleGreedy?; }
    } else if min == 0 {
      var body := LoopBody(atom);
      if max == 1 || max == INFINITY {
        assert code[0] == Split(greedy, if max == 1 then |body| else |body| + 1);
      } else {
        assert code[1] == Split(greedy, |body| + 1);
        assert SimpleCount(code) == -1 by { NotSimple(code, 1); }
      }
    } else if min == 1 && max == INFINITY && !NeedCheckAdvance(atom) {
      assert code[|atom|] == Split(!greedy, -(|atom| + 1));
      NotSimple(code, |atom|);
    } else if min > 1 {
      assert code[|atom| + 1] == ILoop(-(|atom| + 1));
      NotSimple(code, |atom| + 1);
    } else if max > 1 {
      var body := LoopBody(atom);
      var k := if max == INFINITY then |atom| else |atom| + 1;
      assert code[k] == Split(greedy, |body| + 1);
      NotSimple(code, k);
    } else {
      assert code == atom;
    }
  }

  lemma {:induction false} NotSimple(code: seq<Instr>, k: nat)
    requires k < |code| && !code[k].IRead? && !code[k].IAssert?
    ensures SimpleCount(code) == -1
  {
    if k > 0 { NotSimple(code[1..], k - 1); }
  }

  lemma BranchingCode(n: Node, backward: bool)
    requires WellFormed(n) && (n.Alt? || n.Look? || n.Capture?)
    ensures SimpleCount(Code(n, backward)) == -1
    ensures !n.Capture? ==> !Predictable(Code(n, backward))
  {
    var first := Code(n, backward)[0];
    assert n.Alt? ==> first.ISplitNextFirst?;
    assert n.Look? ==> first.ILook?;
  }

  /** Predictable code that reads a character moves the pointer. */
  lemma {:induction false} ReadsMove(n: Node, backward: bool, t: Subject, p: nat, q: nat)
    requires WellFormed(n) && Boundary(t, p)
    requires Predictable(Code(n, backward)) && HasRead(Code(n, backward))
    requires q in Ends(n, backward, t, p)
    ensures q != p
  {
    var code := Code(n, backward);
    if n.Alt? || n.Look? { BranchingCode(n, backward); }
    match n
    case Seq(l, r) =>
      var (m, k) := if backward then (r, l) else (l, r);
      var cm, ck := Code(m, backward), Code(k, backward);
      ScanConcat(cm, ck);
      var mid := SequenceMid(m, k, backward, t, p, q);
      if HasRead(cm) {
        ReadsMove(m, backward, t, p, mid);
      } else {
        ReadsMove(k, backward, t, mid, q);
      }
    case Quant(a, min, max, greedy) =>
      ScanConcat(ResetCode(a, min), QuantCode(Code(a, backward), min, max, greedy));
      StraightQuant(Code(a, backward), min, max, greedy);
      RepeatOnce(a, backward, t, greedy, p);
      ReadsMove(a, backward, t, p, q);
    case Capture(_, b) =>
      ScanFramed(code[0], Code(b, backward), code[|code| - 1]);
      ReadsMove(b, backward, t, p, q);
    case _ =>
  }

  lemma ScanFramed(open: Instr, inner: seq<Instr>, close: Instr)
    ensures Predictable([open] + inner + [close]) ==> Predictable(inner)
    ensures !open.IRead? && !close.IRead? && HasRead([open] + inner + [close]) ==> HasRead(inner)
  {
    ScanConcat([open] + inner, [close]);
    ScanConcat([open], inner);
  }

  lemma ScanConcat(a: seq<Instr>, b: seq<Instr>)
    ensures Predictable(a + b) <==> Predictable(a) && Predictable(b)
    ensures HasRead(a + b) <==> HasRead(a) || HasRead(b)
  {
    var c := a + b;
    assert forall i :: 0 <= i < |a| ==> c[i] == a[i];
    assert forall i :: 0 <= i < |b| ==> c[|a| + i] == b[i];
    assert forall i :: |a| <= i < |c| ==> c[i] == b[i - |a|];
  }

  /** An end of a sequence is reached through an end of its first part. */
  lemma SequenceMid(m: Node, k: Node, backward: bool, t: Subject, p: nat, q: nat) returns (mid: nat)
    requires q in Bind(Ends(m, backward, t, p), EndsOf(k, backward, t))
    ensures mid in Ends(m, backward, t, p) && q in Ends(k, backward, t, mid)
    ensures InDirection(t, backward, p, mid) && InDirection(t, backward, mid, q)
  {
    var i := InBind(Ends(m, backward, t, p), EndsOf(k, backward, t), q);
    mid := Ends(m, backward, t, p)[i];
    EndsInDirection(m, backward, t, p);
    EndsInDirection(k, backward, t, mid);
  }

  /** When the compiler leaves the zero-advance check out, no iteration can be empty. */
  lemma NoCheckNeeded(n: Node, backward: bool, t: Subject, p: nat)
    requires WellFormed(n) && Boundary(t, p)
    requires !NeedCheckAdvance(Code(n, backward))
    ensures Advancing(Ends(n, backward, t, p), p) == Ends(n, backward, t, p)
  {
    if p in Ends(n, backward, t, p) { ReadsMove(n, backward, t, p, p); }
    AllAdvance(Ends(n, backward, t, p), p);
  }

  lemma {:induction false} AllAdvance(qs: seq<nat>, p: nat)
    requires p !in qs
    ensures Advancing(qs, p) == qs
  {
    if qs != [] { AllAdvance(qs[1..], p); }
  }

  // ----- simple atoms -----

  /** Running code made of character reads and assertions. */
  function StraightRun(code: seq<Instr>, t: Subject, p: nat): (r: Option<nat>)
    requires p <= |t.units| && SimpleCount(code) >= 0
  {
    if code == [] then Some(p)
    else
      match code[0]
      case IRead(op) =>
        if p < |t.units| && OpAccepts(op, CharAt(t, p)) then StraightRun(code[1..], t, NextPos(t, p)) else None
      case IAssert(kind) =>
        if Asserts(kind, t, p) then StraightRun(code[1..], t, p) else None
  }

  function ToSeq(o: Option<nat>): (r: seq<nat>) {
    match o case None => [] case Some(q) => [q]
  }

  lemma {:induction false} SimpleConcat(a: seq<Instr>, b: seq<Instr>)
    ensures SimpleCount(a + b) ==
            if SimpleCount(a) < 0 || SimpleCount(b) < 0 then -1 else SimpleCount(a) + SimpleCount(b)
  {
    if a == [] {
      assert a + b == b;
    } else {
      assert (a + b)[1..] == a[1..] + b;
      SimpleConcat(a[1..], b);
    }
  }

  lemma {:induction false} StraightConcat(a: seq<Instr>, b: seq<Instr>, t: Subject, p: nat)
    requires p <= |t.units| && SimpleCount(a) >= 0 && SimpleCount(b) >= 0
    ensures SimpleCount(a + b) >= 0
    ensures StraightRun(a, t, p).Some? ==> StraightRun(a, t, p).value <= |t.units|
    ensures StraightRun(a + b, t, p) ==
            match StraightRun(a, t, p) case None => None case Some(q) => StraightRun(b, t, q)
  {
    SimpleConcat(a, b);
    if a == [] {
      assert a + b == b;
    } else {
      assert (a + b)[1..] == a[1..] + b;
      match a[0]
      case IRead(op) =>
        if p < |t.units| { StraightConcat(a[1..], b, t, NextPos(t, p)); }
      case IAssert(kind) => StraightConcat(a[1..], b, t, p);
    }
  }

  /** A simple run is undone by stepping back as many characters as it read. */
  lemma {:induction false} StraightRunBack(code: seq<Instr>, t: Subject, p: nat, k: nat)
    requires Boundary(t, p) && SimpleCount(code) >= 0
    requires StraightRun(code, t, p).Some?
    ensures var q := StraightRun(code, t, p).value;
            Boundary(t, q) && PrevMany(t, q, SimpleCount(code) + k) == PrevMany(t, p, k)
            && p <= q && (SimpleCount(code) > 0 ==> p < q)
  {
    if code != [] {
      match code[0]
      case IRead(op) =>
        StepForward(t, p);
        StraightRunBack(code[1..], t, NextPos(t, p), k + 1);
      case IAssert(kind) => StraightRunBack(code[1..], t, p, k);
    }
  }

  lemma CharBound(t: Subject, p: nat)
    requires ValidSubject(t) && p < |t.units|
    ensures CharAt(t, p) <= 0x10_FFFF
  {
  }

  /** An atom the compiler calls simple has at most one end, the one the straight run finds. */
  lemma {:induction false} SimpleEnds(n: Node, backward: bool, t: Subject, p: nat)
    requires WellFormed(n) && Boundary(t, p) && ValidSubject(t)
    requires SimpleCount(Code(n, backward)) >= 0
    ensures Ends(n, backward, t, p) == ToSeq(StraightRun(Code(n, backward), t, p))
    decreases n, 1
  {
    if n.Alt? || n.Look? || n.Capture? { BranchingCode(n, backward); }
    match n
    case Char(test) =>
      if p < |t.units| {
        CharBound(t, p);
        RegexRanges.TestOpFaithful(test, CharAt(t, p));
      }
    case Seq(l, r) =>
      var (m, k) := if backward then (r, l) else (l, r);
      SimpleSequence(n, m, k, backward, t, p);
    case Quant(a, min, max, greedy) =>
      SimpleReset(a, min, QuantCode(Code(a, backward), min, max, greedy));
      StraightQuant(Code(a, backward), min, max, greedy);
      if max == 1 {
        RepeatOnce(a, backward, t, greedy, p);
        SimpleEnds(a, backward, t, p);
      }
    case _ =>
  }

  /** A reset in front keeps code from being simple. */
  lemma SimpleReset(a: Node, min: nat, code: seq<Instr>)
    ensures SimpleCount(ResetCode(a, min) + code) >= 0 ==> ResetCode(a, min) + code == code
  {
    SimpleConcat(ResetCode(a, min), code);
  }

  lemma {:induction false} SimpleSequence(n: Node, m: Node, k: Node, backward: bool, t: Subject, p: nat)
    requires n.Seq? && (m, k) == if backward then (n.right, n.left) else (n.left, n.right)
    requires WellFormed(n) && Boundary(t, p) && ValidSubject(t)
    requires SimpleCount(Code(n, backward)) >= 0
    ensures Ends(n, backward, t, p) == ToSeq(StraightRun(Code(n, backward), t, p))
    decreases n, 0
  {
    var cm, ck := Code(m, backward), Code(k, backward);
    assert Code(n, backward) == cm + ck;
    SimpleConcat(cm, ck);
    StraightConcat(cm, ck, t, p);
    SimpleEnds(m, backward, t, p);
    var f := EndsOf(k, backward, t);
    match StraightRun(cm, t, p)
    case None => assert Bind([], f) == [];
    case Some(q) =>
      StraightRunBack(cm, t, p, 0);
      SimpleEnds(k, backward, t, q);
      assert Bind([q], f) == f(q) + Bind([], f) == f(q);
  }
}
