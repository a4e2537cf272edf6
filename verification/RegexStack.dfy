/** The counter stack: its depth at every instruction is what a single linear scan computes. */
module RegexStack {
  import opened Extremes
  import opened RegexSyntax
  import opened RegexSemantics
  import opened RegexVm
  import opened Subject
  import opened RegexSearch

  function Effect(i: Instr): (r: int) {
    match i
    case IPushI32(_) => 1
    case IPushCharPos => 1
    case IDrop => -1
    case ICheckAdvance => -1
    case _ => 0
  }

  /** The number of pushes minus drops before instruction `k`. */
  function Depth(code: seq<Instr>, k: nat): (r: int)
    requires k <= |code|
  {
    if k == 0 then 0 else Depth(code, k - 1) + Effect(code[k - 1])
  }

  /** A jump from `k` lands inside the code, at the depth it leaves from. */
  predicate Lands(code: seq<Instr>, k: nat, target: int)
    requires k < |code|
  {
    0 <= target <= |code| && Depth(code, target) == Depth(code, k)
  }

  /** The atom of a simple greedy quantifier at `k`: reads and assertions up to a match. */
  predicate SimpleBody(code: seq<Instr>, k: nat, offset: int)
    requires k < |code|
  {
    && 1 <= offset && k + offset < |code| && code[k + offset] == IMatch
    && forall j :: k < j < k + offset ==> code[j].IRead? || code[j].IAssert?
  }

  /** Instruction `k` keeps to the stack, whatever lies below, and to `captures` capture groups. */
  predicate Sound(code: seq<Instr>, captures: nat, k: nat)
    requires k < |code|
  {
    && Depth(code, k) >= 0
    && match code[k]
       case IDrop => Depth(code, k) >= 1
       case ICheckAdvance => Depth(code, k) >= 1
       case ILoop(offset) => Depth(code, k) >= 1 && Lands(code, k, k + 1 + offset)
       case IGoto(offset) => Lands(code, k, k + 1 + offset)
       case ISplitGotoFirst(offset) => Lands(code, k, k + 1 + offset)
       case ISplitNextFirst(offset) => Lands(code, k, k + 1 + offset)
       case ILook(_, offset) => Lands(code, k, k + 1 + offset)
       case ISimpleGreedy(offset, min, max, _) => SimpleBody(code, k, offset) && Lands(code, k, k + 1 + offset)
       case ISaveStart(j) => j < captures
       case ISaveEnd(j) => j < captures
       case ISaveReset(_, j) => j < captures
       case _ => true
  }

  /** Code that ends at the depth it starts from and is sound throughout. */
  ghost predicate Balanced(code: seq<Instr>, captures: nat) {
    && Depth(code, |code|) == 0
    && forall k {:trigger Sound(code, captures, k)} :: 0 <= k < |code| ==> Sound(code, captures, k)
  }

  // ----- code inside code -----

  lemma {:induction false} DepthInside(pre: seq<Instr>, code: seq<Instr>, post: seq<Instr>, k: nat)
    requires k <= |code|
    ensures Depth(pre + code + post, |pre| + k) == Depth(pre, |pre|) + Depth(code, k)
    decreases k
  {
    var all := pre + code + post;
    if k == 0 {
      DepthPrefix(pre, code + post, |pre|);
      assert pre + (code + post) == all;
    } else {
      DepthInside(pre, code, post, k - 1);
      assert all[|pre| + k - 1] == code[k - 1];
    }
  }

  lemma {:induction false} DepthPrefix(pre: seq<Instr>, post: seq<Instr>, k: nat)
    requires k <= |pre|
    ensures Depth(pre + post, k) == Depth(pre, k)
  {
    if k > 0 { DepthPrefix(pre, post, k - 1); }
  }

  lemma LandsInside(pre: seq<Instr>, code: seq<Instr>, post: seq<Instr>, k: nat, target: int)
    requires k < |code| && Lands(code, k, target)
    ensures Lands(pre + code + post, |pre| + k, |pre| + target)
  {
    DepthInside(pre, code, post, k);
    DepthInside(pre, code, post, target);
  }

  lemma SimpleInside(pre: seq<Instr>, code: seq<Instr>, post: seq<Instr>, k: nat, offset: int)
    requires k < |code| && SimpleBody(code, k, offset)
    ensures SimpleBody(pre + code + post, |pre| + k, offset)
  {
    var all := pre + code + post;
    assert all[|pre| + (k + offset)] == code[k + offset];
    forall j | |pre| + k < j < |pre| + k + offset ensures all[j].IRead? || all[j].IAssert? {
      assert all[j] == code[j - |pre|];
    }
  }

  /** A sound instruction stays sound when code is put around it at a depth of at least zero. */
  lemma SoundInside(pre: seq<Instr>, code: seq<Instr>, post: seq<Instr>, captures: nat, k: nat)
    requires k < |code| && Sound(code, captures, k) && Depth(pre, |pre|) >= 0
    ensures Sound(pre + code + post, captures, |pre| + k)
  {
    var all := pre + code + post;
    assert all[|pre| + k] == code[k];
    DepthInside(pre, code, post, k);
    match code[k]
    case ILoop(offset) => LandsInside(pre, code, post, k, k + 1 + offset);
    case IGoto(offset) => LandsInside(pre, code, post, k, k + 1 + offset);
    case ISplitGotoFirst(offset) => LandsInside(pre, code, post, k, k + 1 + offset);
    case ISplitNextFirst(offset) => LandsInside(pre, code, post, k, k + 1 + offset);
    case ILook(_, offset) => LandsInside(pre, code, post, k, k + 1 + offset);
    case ISimpleGreedy(offset, _, _, _) =>
      LandsInside(pre, code, post, k, k + 1 + offset);
      SimpleInside(pre, code, post, k, offset);
    case _ =>
  }

  /** The depths in a frame around balanced code. */
  lemma FrameDepths(pre: seq<Instr>, code: seq<Instr>, post: seq<Instr>, captures: nat, k: nat)
    requires Balanced(code, captures) && k <= |pre| + |code| + |post|
    ensures Depth(pre + code + post, k) ==
            if k <= |pre| then Depth(pre, k)
            else if k <= |pre| + |code| then Depth(pre, |pre|) + Depth(code, k - |pre|)
            else Depth(pre, |pre|) + Depth(post, k - |pre| - |code|)
  {
    var all := pre + code + post;
    if k <= |pre| {
      DepthPrefix(pre, code + post, k);
      assert pre + (code + post) == all;
    } else if k <= |pre| + |code| {
      DepthInside(pre, code, post, k - |pre|);
    } else {
      DepthInside(pre + code, post, [], k - |pre| - |code|);
      assert pre + code + post + [] == all;
      DepthInside(pre, code, [], |code|);
      assert pre + code + [] == pre + code;
    }
  }

  /** Balanced code in a frame whose own instructions are sound. */
  lemma BalancedFrame(pre: seq<Instr>, code: seq<Instr>, post: seq<Instr>, captures: nat)
    requires Balanced(code, captures) && Depth(pre, |pre|) >= 0
    requires Depth(pre, |pre|) + Depth(post, |post|) == 0
    requires FrameSound(pre, code, post, captures)
    ensures Balanced(pre + code + post, captures)
  {
    forall k | 0 <= k < |pre + code + post| ensures Sound(pre + code + post, captures, k) {
      FrameStep(pre, code, post, captures, k);
    }
    FrameTotal(pre, code, post, captures);
  }

  lemma FrameTotal(pre: seq<Instr>, code: seq<Instr>, post: seq<Instr>, captures: nat)
    requires Balanced(code, captures)
    ensures Depth(pre + code + post, |pre + code + post|) == Depth(pre, |pre|) + Depth(post, |post|)
  {
    FrameDepths(pre, code, post, captures, |pre| + |code| + |post|);
    assert Depth(post, 0) == 0 && Depth(code, 0) == 0;
  }

  /** The instructions of the frame itself are sound. */
  ghost predicate FrameSound(pre: seq<Instr>, code: seq<Instr>, post: seq<Instr>, captures: nat) {
    forall k {:trigger Sound(pre + code + post, captures, k)} :: 0 <= k < |pre + code + post| ==>
      k < |pre| || |pre| + |code| <= k ==> Sound(pre + code + post, captures, k)
  }

  lemma FrameStep(pre: seq<Instr>, code: seq<Instr>, post: seq<Instr>, captures: nat, k: nat)
    requires k < |pre + code + post| && FrameSound(pre, code, post, captures)
    requires Balanced(code, captures) && Depth(pre, |pre|) >= 0
    ensures Sound(pre + code + post, captures, k)
  {
    if |pre| <= k < |pre| + |code| {
      assert Sound(code, captures, k - |pre|);
      SoundInside(pre, code, post, captures, k - |pre|);
    }
  }

  lemma BalancedConcat(a: seq<Instr>, b: seq<Instr>, captures: nat)
    requires Balanced(a, captures) && Balanced(b, captures)
    ensures Balanced(a + b, captures)
  {
    forall k | 0 <= k < |a| || |a| + 0 <= k < |a| + |b| ensures Sound(a + b, captures, k) {
      if k < |a| {
        assert Sound(a, captures, k);
        SoundInside([], a, b, captures, k);
        assert [] + a + b == a + b;
      } else {
        assert Sound(b, captures, k - |a|);
        SoundInside(a, b, [], captures, k - |a|);
        assert a + b + [] == a + b;
      }
    }
    DepthInside(a, b, [], |b|);
    assert a + b + [] == a + b;
  }

  // ----- the shapes the compiler emits -----

  lemma BalancedBody(atom: seq<Instr>, captures: nat)
    requires Balanced(atom, captures)
    ensures Balanced(LoopBody(atom), captures)
  {
    if NeedCheckAdvance(atom) {
      var pre, post := [IPushCharPos], [ICheckAdvance];
      var all := pre + atom + post;
      assert Depth(pre, 1) == 1 && Depth(post, 1) == -1;
      FrameDepths(pre, atom, post, captures, 1 + |atom|);
      assert all[1 + |atom|] == ICheckAdvance;
      assert Depth(pre, 0) == 0;
      BalancedFrame(pre, atom, post, captures);
    }
  }

  lemma BalancedEndless(body: seq<Instr>, greedy: bool, captures: nat)
    requires Balanced(body, captures)
    ensures Balanced([Split(greedy, |body| + 1)] + body + [IGoto(-(|body| + 2))], captures)
  {
    var pre, post := [Split(greedy, |body| + 1)], [IGoto(-(|body| + 2))];
    var all := pre + body + post;
    assert Depth(pre, 0) == 0 && Depth(pre, 1) == 0 && Depth(post, 1) == 0;
    FrameDepths(pre, body, post, captures, 0);
    FrameDepths(pre, body, post, captures, 1 + |body|);
    FrameDepths(pre, body, post, captures, 2 + |body|);
    assert all[0] == pre[0] && all[1 + |body|] == post[0];
    BalancedFrame(pre, body, post, captures);
  }

  lemma BalancedCounted(body: seq<Instr>, max: nat, greedy: bool, captures: nat)
    requires Balanced(body, captures)
    ensures Balanced([IPushI32(max), Split(greedy, |body| + 1)] + body + [ILoop(-(|body| + 2)), IDrop], captures)
  {
    var pre, post := [IPushI32(max), Split(greedy, |body| + 1)], [ILoop(-(|body| + 2)), IDrop];
    var all := pre + body + post;
    assert Depth(pre, 0) == 0 && Depth(pre, 1) == 1 && Depth(pre, 2) == 1;
    assert Depth(post, 0) == 0 && Depth(post, 1) == 0 && Depth(post, 2) == -1;
    FrameDepths(pre, body, post, captures, 0);
    FrameDepths(pre, body, post, captures, 1);
    FrameDepths(pre, body, post, captures, 2 + |body|);
    FrameDepths(pre, body, post, captures, 3 + |body|);
    assert all[0] == pre[0] && all[1] == pre[1] && all[2 + |body|] == post[0] && all[3 + |body|] == post[1];
    BalancedFrame(pre, body, post, captures);
  }

  lemma BalancedRequired(atom: seq<Instr>, min: nat, captures: nat)
    requires Balanced(atom, captures)
    ensures Balanced(RequiredCode(atom, min), captures)
  {
    if min != 1 {
      var pre, post := [IPushI32(min)], [ILoop(-(|atom| + 1)), IDrop];
      var all := pre + atom + post;
      assert Depth(pre, 0) == 0 && Depth(pre, 1) == 1;
      assert Depth(post, 0) == 0 && Depth(post, 1) == 0 && Depth(post, 2) == -1;
      FrameDepths(pre, atom, post, captures, 0);
      FrameDepths(pre, atom, post, captures, 1);
      FrameDepths(pre, atom, post, captures, 1 + |atom|);
      FrameDepths(pre, atom, post, captures, 2 + |atom|);
      assert all[0] == pre[0] && all[1 + |atom|] == post[0] && all[2 + |atom|] == post[1];
      BalancedFrame(pre, atom, post, captures);
    }
  }

  lemma BalancedOnce(body: seq<Instr>, greedy: bool, captures: nat)
    requires Balanced(body, captures)
    ensures Balanced([Split(greedy, |body|)] + body, captures)
  {
    var pre, post: seq<Instr> := [Split(greedy, |body|)], [];
    var all := pre + body + post;
    assert all == pre + body;
    assert Depth(pre, 0) == 0 && Depth(pre, 1) == 0;
    FrameDepths(pre, body, post, captures, 0);
    FrameDepths(pre, body, post, captures, 1 + |body|);
    assert all[0] == pre[0];
    BalancedFrame(pre, body, post, captures);
  }

  lemma BalancedPlus(atom: seq<Instr>, greedy: bool, captures: nat)
    requires Balanced(atom, captures)
    ensures Balanced(atom + [Split(!greedy, -(|atom| + 1))], captures)
  {
    var pre: seq<Instr>, post := [], [Split(!greedy, -(|atom| + 1))];
    var all := pre + atom + post;
    assert all == atom + post;
    assert Depth(post, 1) == 0 && Depth(pre, 0) == 0;
    FrameDepths(pre, atom, post, captures, 0);
    FrameDepths(pre, atom, post, captures, |atom|);
    assert all[|atom|] == post[0];
    BalancedFrame(pre, atom, post, captures);
  }

  lemma {:induction false} SimpleOps(code: seq<Instr>, k: nat)
    requires SimpleCount(code) >= 0 && k < |code|
    ensures code[k].IRead? || code[k].IAssert?
  {
    if k > 0 { SimpleOps(code[1..], k - 1); }
  }

  lemma BalancedSimple(atom: seq<Instr>, min: nat, max: nat, captures: nat)
    requires Balanced(atom, captures) && SimpleCount(atom) > 0
    ensures Balanced([ISimpleGreedy(|atom| + 1, min, max, SimpleCount(atom))] + atom + [IMatch], captures)
  {
    var pre, post := [ISimpleGreedy(|atom| + 1, min, max, SimpleCount(atom))], [IMatch];
    var all := pre + atom + post;
    assert Depth(pre, 0) == 0 && Depth(pre, 1) == 0 && Depth(post, 0) == 0 && Depth(post, 1) == 0;
    FrameDepths(pre, atom, post, captures, 0);
    FrameDepths(pre, atom, post, captures, 1 + |atom|);
    FrameDepths(pre, atom, post, captures, 2 + |atom|);
    assert all[0] == pre[0] && all[1 + |atom|] == IMatch;
    forall j | 0 < j < 1 + |atom| ensures all[j].IRead? || all[j].IAssert? {
      SimpleOps(atom, j - 1);
    }
    hide Balanced, Depth, SimpleCount;
    BalancedFrame(pre, atom, post, captures);
  }

  lemma BalancedOptional(atom: seq<Instr>, max: nat, greedy: bool, captures: nat)
    requires Balanced(atom, captures)
    ensures Balanced(OptionalCode(atom, max, greedy), captures)
  {
    BalancedBody(atom, captures);
    if max == INFINITY {
      BalancedEndless(LoopBody(atom), greedy, captures);
    } else {
      BalancedCounted(LoopBody(atom), max, greedy, captures);
    }
  }

  lemma BalancedNothing(captures: nat)
    ensures Balanced([], captures)
  {
  }

  lemma BalancedQuant(atom: seq<Instr>, min: nat, max: nat, greedy: bool, captures: nat)
    requires Balanced(atom, captures) && min <= max <= INFINITY
    ensures Balanced(QuantCode(atom, min, max, greedy), captures)
  {
    BalancedNothing(captures);
    if greedy && max > 0 && SimpleCount(atom) > 0 {
      BalancedSimple(atom, min, max, captures);
    } else if min == 0 {
      BalancedBody(atom, captures);
      BalancedOnce(LoopBody(atom), greedy, captures);
      BalancedOptional(atom, max, greedy, captures);
    } else if min == 1 && max == INFINITY && !NeedCheckAdvance(atom) {
      BalancedPlus(atom, greedy, captures);
    } else {
      var tail := if max == INFINITY then OptionalCode(atom, INFINITY, greedy)
                  else if max > min then OptionalCode(atom, max - min, greedy) else [];
      BalancedRequired(atom, min, captures);
      if max == INFINITY { BalancedOptional(atom, INFINITY, greedy, captures); }
      else if max > min { BalancedOptional(atom, max - min, greedy, captures); }
      BalancedConcat(RequiredCode(atom, min), tail, captures);
    }
  }

  lemma BalancedAlt(first: seq<Instr>, second: seq<Instr>, captures: nat)
    requires Balanced(first, captures) && Balanced(second, captures)
    ensures Balanced([ISplitNextFirst(|first| + 1)] + first + [IGoto(|second|)] + second, captures)
  {
    var pre, mid := [ISplitNextFirst(|first| + 1)], [IGoto(|second|)];
    var post := mid + second;
    var all := pre + first + post;
    assert all == pre + first + mid + second;
    assert Depth(pre, 0) == 0 && Depth(pre, 1) == 0 && Depth(mid, 0) == 0 && Depth(mid, 1) == 0;
    DepthInside(mid, second, [], 0);
    DepthInside(mid, second, [], |second|);
    assert mid + second + [] == post;
    DepthPrefix(mid, second, 0);
    DepthPrefix(mid, second, 1);
    FrameDepths(pre, first, post, captures, 0);
    FrameDepths(pre, first, post, captures, 1 + |first|);
    FrameDepths(pre, first, post, captures, 2 + |first|);
    FrameDepths(pre, first, post, captures, |all|);
    assert all[0] == pre[0] && all[1 + |first|] == mid[0];
    assert Sound(all, captures, 0) && Sound(all, captures, 1 + |first|);
    forall k | 0 <= k < |all| && (k < |pre| || |pre| + |first| <= k) ensures Sound(all, captures, k) {
      if k >= 2 + |first| {
        AltTail(first, second, captures, k - 2 - |first|);
      }
    }
    BalancedFrame(pre, first, post, captures);
  }

  lemma AltTail(first: seq<Instr>, second: seq<Instr>, captures: nat, k: nat)
    requires Balanced(first, captures) && Balanced(second, captures) && k < |second|
    ensures Sound([ISplitNextFirst(|first| + 1)] + first + ([IGoto(|second|)] + second), captures, 2 + |first| + k)
  {
    var pre, mid := [ISplitNextFirst(|first| + 1)], [IGoto(|second|)];
    assert Sound(second, captures, k);
    FrameTotal(pre, first, mid, captures);
    assert Depth(pre, 0) == 0 && Depth(pre, 1) == 0 && Depth(mid, 0) == 0 && Depth(mid, 1) == 0;
    SoundInside(pre + first + mid, second, [], captures, k);
    assert pre + first + mid + second + [] == pre + first + (mid + second);
  }

  lemma BalancedLook(negated: bool, inner: seq<Instr>, captures: nat)
    requires Balanced(inner, captures)
    ensures Balanced([ILook(negated, |inner| + 1)] + inner + [IMatch], captures)
  {
    var pre, post := [ILook(negated, |inner| + 1)], [IMatch];
    var all := pre + inner + post;
    assert Depth(pre, 0) == 0 && Depth(pre, 1) == 0 && Depth(post, 1) == 0 && Depth(post, 0) == 0;
    FrameDepths(pre, inner, post, captures, 0);
    FrameDepths(pre, inner, post, captures, 1 + |inner|);
    FrameDepths(pre, inner, post, captures, 2 + |inner|);
    assert all[0] == pre[0] && all[1 + |inner|] == post[0];
    BalancedFrame(pre, inner, post, captures);
  }

  /** An instruction with no effect on the stack and no jump. */
  lemma BalancedOne(i: Instr, captures: nat)
    requires i.IRead? || i.IAssert? || i.IPrev? || i.IMatch? || ((i.ISaveStart? || i.ISaveEnd?) && i.index < captures)
             || (i.ISaveReset? && i.last < captures)
    ensures Balanced([i], captures)
  {
    assert Depth([i], 0) == 0 && Depth([i], 1) == 0;
    assert Sound([i], captures, 0);
  }

  /** The code of every pattern, captures included, is balanced. */
  lemma {:induction false} BalancedCode(n: Node, backward: bool, captures: nat)
    requires WellFormed(n) && CaptureEnd(n) <= captures
    ensures Balanced(Code(n, backward), captures)
  {
    BalancedNothing(captures);
    match n
    case Char(test) => BalancedRead(TestOp(test), backward, captures);
    case Assert(kind) => BalancedOne(IAssert(kind), captures);
    case Empty =>
    case Seq(l, r) =>
      BalancedCode(l, backward, captures);
      BalancedCode(r, backward, captures);
      BalancedConcat(Code(l, backward), Code(r, backward), captures);
      BalancedConcat(Code(r, backward), Code(l, backward), captures);
    case Alt(l, r) =>
      BalancedCode(l, backward, captures);
      BalancedCode(r, backward, captures);
      BalancedAlt(Code(l, backward), Code(r, backward), captures);
    case Look(negated, back, b) =>
      BalancedCode(b, back, captures);
      BalancedLook(negated, Code(b, back), captures);
    case Quant(a, min, max, greedy) =>
      BalancedCode(a, backward, captures);
      BalancedQuant(Code(a, backward), min, max, greedy, captures);
      BalancedReset(a, min, captures);
      BalancedConcat(ResetCode(a, min), QuantCode(Code(a, backward), min, max, greedy), captures);
    case Capture(k, b) =>
      BalancedCode(b, backward, captures);
      BalancedCapture(Code(b, backward), k, captures);
  }

  lemma BalancedRead(op: CharOp, backward: bool, captures: nat)
    ensures Balanced(CharCode(op, backward), captures)
  {
    BalancedOne(IPrev, captures);
    BalancedOne(IRead(op), captures);
    BalancedConcat([IPrev], [IRead(op)], captures);
    BalancedConcat([IPrev] + [IRead(op)], [IPrev], captures);
    assert [IPrev] + [IRead(op)] + [IPrev] == [IPrev, IRead(op), IPrev];
  }

  lemma BalancedCapture(inner: seq<Instr>, k: nat, captures: nat)
    requires Balanced(inner, captures) && k < captures
    ensures Balanced([ISaveEnd(k)] + inner + [ISaveStart(k)], captures)
    ensures Balanced([ISaveStart(k)] + inner + [ISaveEnd(k)], captures)
  {
    BalancedOne(ISaveStart(k), captures);
    BalancedOne(ISaveEnd(k), captures);
    BalancedConcat([ISaveStart(k)], inner, captures);
    BalancedConcat([ISaveStart(k)] + inner, [ISaveEnd(k)], captures);
    BalancedConcat([ISaveEnd(k)], inner, captures);
    BalancedConcat([ISaveEnd(k)] + inner, [ISaveStart(k)], captures);
  }

  lemma BalancedReset(a: Node, min: nat, captures: nat)
    requires CaptureEnd(a) <= captures
    ensures Balanced(ResetCode(a, min), captures)
  {
    BalancedNothing(captures);
    if ResetCode(a, min) != [] { BalancedOne(ResetCode(a, min)[0], captures); }
  }

  lemma BalancedPrefix(sticky: bool, captures: nat)
    ensures Balanced(SearchPrefix(sticky), captures)
  {
    BalancedNothing(captures);
    if !sticky {
      var code := [IRead(AnyChar)];
      BalancedOne(IRead(AnyChar), captures);
      BalancedEndless(code, false, captures);
      assert [Split(false, 2)] + code + [IGoto(-3)] == SearchPrefix(sticky);
    }
  }

  /** The whole program but its final match. */
  lemma BalancedProgram(n: Node, sticky: bool, captures: nat)
    requires WellFormed(n) && CaptureEnd(n) <= captures && 0 < captures
    ensures var code := ProgramCode(n, sticky);
            |code| > 0 && Top(code) == IMatch && Balanced(Rest(code), captures) && Balanced(code, captures)
  {
    var code, prefix, body := ProgramCode(n, sticky), SearchPrefix(sticky), Code(n, false);
    BalancedPrefix(sticky, captures);
    BalancedCode(n, false, captures);
    BalancedOne(ISaveStart(0), captures);
    BalancedOne(ISaveEnd(0), captures);
    BalancedOne(IMatch, captures);
    BalancedConcat([ISaveStart(0)], body, captures);
    BalancedConcat([ISaveStart(0)] + body, [ISaveEnd(0)], captures);
    BalancedConcat(prefix, [ISaveStart(0)] + body + [ISaveEnd(0)], captures);
    BalancedConcat(prefix + ([ISaveStart(0)] + body + [ISaveEnd(0)]), [IMatch], captures);
    assert prefix + ([ISaveStart(0)] + body + [ISaveEnd(0)]) + [IMatch] == code;
    assert Rest(code) == prefix + ([ISaveStart(0)] + body + [ISaveEnd(0)]);
  }

  // ----- every reachable configuration -----

  /** The whole program: sound, and ending in a match. */
  ghost predicate SoundProgram(prog: Program, captures: nat) {
    var code := prog.code;
    && |code| > 0 && Top(code) == IMatch
    && Balanced(Rest(code), captures) && Balanced(code, captures)
  }

  /** The stack is as deep at `pc` as the linear scan says. */
  ghost predicate AtDepth(prog: Program, pc: int, stack: seq<nat>) {
    0 <= pc < |prog.code| && |stack| == Depth(prog.code, pc)
  }

  ghost predicate SafeSaved(prog: Program, captures: nat, s: Saved) {
    && s.cptr <= |prog.subject.units| && |s.capture| == 2 * captures
    && AtDepth(prog, s.pc, s.stack)
    && (s.kind == GreedyPoint ==> prog.code[s.pc].ISimpleGreedy? && s.count > 0)
  }

  ghost predicate SafeStates(prog: Program, captures: nat, states: SavedStack) {
    match states
    case Bottom => true
    case Push(s, below) => SafeSaved(prog, captures, s) && SafeStates(prog, captures, below)
  }

  /** An inner run stays inside the atom of its quantifier. */
  ghost predicate SafeFrame(prog: Program, pc: int, f: Frame) {
    && 0 <= f.pc < |prog.code| && prog.code[f.pc].ISimpleGreedy? && f.cptr <= |prog.subject.units|
    && f.pc < pc <= f.pc + prog.code[f.pc].offset
  }

  ghost predicate Safe(prog: Program, captures: nat, c: Config) {
    match c
    case Run(pc, cptr, stack, capture, states, call) =>
      && AtDepth(prog, pc, stack) && cptr <= |prog.subject.units| && |capture| == 2 * captures
      && SafeStates(prog, captures, states)
      && (call.Some? ==> SafeFrame(prog, pc, call.value))
    case Fail(states) => SafeStates(prog, captures, states)
    case Succeed(capture, states) => |capture| == 2 * captures && SafeStates(prog, captures, states)
    case Halt(_) => true
    case Stuck => false
  }

  /** Only the final match has nothing after it, and jumps stay inside. */
  lemma JumpsInside(prog: Program, captures: nat, k: nat)
    requires SoundProgram(prog, captures) && k < |prog.code|
    ensures Sound(prog.code, captures, k)
    ensures prog.code[k] != IMatch ==> k + 1 < |prog.code|
    ensures var i := prog.code[k];
            (i.IGoto? || i.ISplitGotoFirst? || i.ISplitNextFirst? || i.ILook? || i.ILoop? || i.ISimpleGreedy?) ==>
              0 <= k + 1 + i.offset < |prog.code| && Depth(prog.code, k + 1 + i.offset) == Depth(prog.code, k)
  {
    var code := prog.code;
    assert Sound(code, captures, k);
    if k < |code| - 1 {
      assert Sound(Rest(code), captures, k);
    }
  }

  lemma SafeNoMatch(prog: Program, captures: nat, c: Config)
    requires SoundProgram(prog, captures) && c.Run? && Safe(prog, captures, c)
    ensures Safe(prog, captures, NoMatch(prog, c))
  {
    if c.call.Some? {
      FrameDepth(prog, captures, c.pc, c.call.value);
      SafeFinish(prog, captures, c.call.value, c);
    }
  }

  /** Inside the atom of a simple quantifier the depth does not change. */
  lemma {:induction false} FrameDepth(prog: Program, captures: nat, pc: int, f: Frame)
    requires SoundProgram(prog, captures) && SafeFrame(prog, pc, f)
    ensures pc < |prog.code| && Depth(prog.code, pc) == Depth(prog.code, f.pc)
    ensures pc < f.pc + prog.code[f.pc].offset ==> prog.code[pc].IRead? || prog.code[pc].IAssert?
    ensures pc == f.pc + prog.code[f.pc].offset ==> prog.code[pc] == IMatch
    decreases pc - f.pc
  {
    JumpsInside(prog, captures, f.pc);
    if pc > f.pc + 1 {
      FrameDepth(prog, captures, pc - 1, f);
    }
  }

  lemma SafeFinish(prog: Program, captures: nat, f: Frame, c: Config)
    requires SoundProgram(prog, captures) && c.Run? && |c.capture| == 2 * captures
      && SafeStates(prog, captures, c.states)
    requires 0 <= f.pc < |prog.code| && prog.code[f.pc].ISimpleGreedy? && f.cptr <= |prog.subject.units|
    requires |c.stack| == Depth(prog.code, f.pc)
    ensures Safe(prog, captures, FinishGreedy(prog, f, c))
  {
    JumpsInside(prog, captures, f.pc);
  }

  lemma SafeStraight(prog: Program, captures: nat, c: Config)
    requires SoundProgram(prog, captures) && c.Run? && Safe(prog, captures, c)
    requires var i := prog.code[c.pc]; i.IRead? || i.IAssert? || i.IMatch?
    ensures Safe(prog, captures, StraightOp(prog, prog.code[c.pc], c))
  {
    SafeNoMatch(prog, captures, c);
    JumpsInside(prog, captures, c.pc);
    if c.call.Some? { FrameDepth(prog, captures, c.pc, c.call.value); }
    if prog.code[c.pc].IMatch? { SafeMatch(prog, captures, c); }
  }

  lemma SafeMatch(prog: Program, captures: nat, c: Config)
    requires SoundProgram(prog, captures) && c.Run? && Safe(prog, captures, c) && prog.code[c.pc].IMatch?
    ensures Safe(prog, captures, MatchOp(prog, c))
  {
    match c.call
    case None =>
    case Some(f) =>
      FrameDepth(prog, captures, c.pc, f);
      JumpsInside(prog, captures, f.pc);
      SafeFinish(prog, captures, Frame(f.pc, c.cptr, f.iterations + 1), c);
      assert Depth(prog.code, f.pc + 1) == Depth(prog.code, f.pc);
  }

  lemma SafeControl(prog: Program, captures: nat, c: Config)
    requires SoundProgram(prog, captures) && c.Run? && Safe(prog, captures, c) && c.call == None
    requires var i := prog.code[c.pc]; !(i.IRead? || i.IAssert? || i.IMatch?)
    ensures Safe(prog, captures, ControlOp(prog, prog.code[c.pc], c))
  {
    JumpsInside(prog, captures, c.pc);
    assert Depth(prog.code, c.pc + 1) == Depth(prog.code, c.pc) + Effect(prog.code[c.pc]);
  }

  lemma PrevManyBelow(t: Subject, p: nat, k: nat)
    ensures PrevMany(t, p, k) <= p
    decreases k
  {
    if k > 0 && p > 0 { PrevManyBelow(t, PrevPos(t, p), k - 1); }
  }

  lemma SafeUnwind(prog: Program, captures: nat, c: Config)
    requires SoundProgram(prog, captures) && Safe(prog, captures, c) && (c.Fail? || c.Succeed?)
    ensures Safe(prog, captures, Step(prog, c))
  {
    if c.Fail? && c.states.Push? && c.states.top.kind == GreedyPoint {
      var s := c.states.top;
      JumpsInside(prog, captures, s.pc);
      PrevManyBelow(prog.subject, s.cptr, prog.code[s.pc].charCount);
    }
  }

  lemma SafeStep(prog: Program, captures: nat, c: Config)
    requires SoundProgram(prog, captures) && Safe(prog, captures, c)
    ensures Safe(prog, captures, Step(prog, c))
  {
    match c
    case Run(pc, _, _, _, _, call) =>
      var i := prog.code[pc];
      if i.IRead? || i.IAssert? || i.IMatch? {
        SafeStraight(prog, captures, c);
      } else {
        if call.Some? { FrameDepth(prog, captures, pc, call.value); }
        SafeControl(prog, captures, c);
      }
    case Fail(_) => SafeUnwind(prog, captures, c);
    case Succeed(_, _) => SafeUnwind(prog, captures, c);
    case _ =>
  }

  lemma {:induction false} RunIsSafe(prog: Program, captures: nat, run: seq<Config>, k: nat)
    requires SoundProgram(prog, captures) && IsRun(prog, run) && k < |run| && Safe(prog, captures, run[0])
    ensures Safe(prog, captures, run[k])
  {
    if k > 0 {
      RunIsSafe(prog, captures, run, k - 1);
      assert Linked(prog, run, k - 1);
      SafeStep(prog, captures, run[k - 1]);
    }
  }

  /** A fresh execution at `p` with `captures` capture groups. */
  function Start(p: nat, captures: nat): (r: Config) {
    Run(0, p, [], seq(2 * captures, _ => None), Bottom, None)
  }

  /** The captures a pattern needs, the whole match included. */
  function CaptureGroups(n: Node): (r: nat) {
    Max(1, CaptureEnd(n))
  }

  lemma ReachableIsSafe(n: Node, sticky: bool, t: Subject, p: nat, c: Config)
    requires WellFormed(n) && p <= |t.units|
    requires Reaches(Compiled(n, sticky, t), Start(p, CaptureGroups(n)), c)
    ensures Safe(Compiled(n, sticky, t), CaptureGroups(n), c)
  {
    var prog, captures := Compiled(n, sticky, t), CaptureGroups(n);
    BalancedProgram(n, sticky, captures);
    var run :| IsRun(prog, run) && run[0] == Start(p, captures) && run[|run| - 1] == c;
    RunIsSafe(prog, captures, run, |run| - 1);
  }

  // ----- the stack size in the header -----

  const STACK_SIZE_MAX: nat := 255

  /** lre_compute_stack_size: the greatest depth of a single pass, or -1 beyond STACK_SIZE_MAX. */
  method ComputeStackSize(code: seq<Instr>, ghost captures: nat) returns (size: int)
    requires Balanced(code, captures)
    ensures size == -1 <==> exists k :: 0 <= k <= |code| && Depth(code, k) > STACK_SIZE_MAX
    ensures size != -1 ==> 0 <= size <= STACK_SIZE_MAX
    ensures size != -1 ==> forall k :: 0 <= k <= |code| ==> Depth(code, k) <= size
    ensures size != -1 ==> exists k :: 0 <= k <= |code| && Depth(code, k) == size
  {
    var stackSize := 0;
    size := 0;
    var pos := 0;
    ghost var top := 0;
    while pos < |code|
      invariant 0 <= pos <= |code| && stackSize == Depth(code, pos)
      invariant 0 <= top <= pos && size == Depth(code, top)
      invariant 0 <= size <= STACK_SIZE_MAX
      invariant forall k :: 0 <= k <= pos ==> Depth(code, k) <= size
    {
      assert Sound(code, captures, pos);
      match code[pos] {
        case IPushI32(_) => stackSize := stackSize + 1;
        case IPushCharPos => stackSize := stackSize + 1;
        case IDrop =>
          assert stackSize > 0;
          stackSize := stackSize - 1;
        case ICheckAdvance =>
          assert stackSize > 0;
          stackSize := stackSize - 1;
        case _ =>
      }
      pos := pos + 1;
      if stackSize > size {
        if stackSize > STACK_SIZE_MAX {
          assert Depth(code, pos) > STACK_SIZE_MAX;
          return -1;
        }
        size := stackSize;
        top := pos;
      }
    }
  }

  /** Every saved stack fits as well. */
  ghost predicate StacksFit(states: SavedStack, size: int) {
    states.Push? ==> |states.top.stack| <= size && StacksFit(states.below, size)
  }

  lemma {:induction false} SafeStatesFit(prog: Program, captures: nat, states: SavedStack, size: int)
    requires SafeStates(prog, captures, states)
    requires forall k :: 0 <= k <= |prog.code| ==> Depth(prog.code, k) <= size
    ensures StacksFit(states, size)
  {
    if states.Push? { SafeStatesFit(prog, captures, states.below, size); }
  }

  /** In every configuration that an execution of any compiled pattern reaches, restored and
      lookaround states included, the stack is exactly as deep as the linear scan says at the
      current instruction, so it neither underflows nor exceeds the size in the header; and the
      machine is never stuck. */
  lemma StackSizeIsSound(n: Node, sticky: bool, t: Subject, p: nat, c: Config, size: int)
    requires WellFormed(n) && p <= |t.units|
    requires Reaches(Compiled(n, sticky, t), Start(p, CaptureGroups(n)), c)
    requires forall k :: 0 <= k <= |ProgramCode(n, sticky)| ==> Depth(ProgramCode(n, sticky), k) <= size
    ensures c != Stuck
    ensures c.Run? ==> && 0 <= c.pc < |ProgramCode(n, sticky)|
                       && |c.stack| == Depth(ProgramCode(n, sticky), c.pc) <= size
                       && StacksFit(c.states, size)
    ensures c.Fail? ==> StacksFit(c.states, size)
    ensures c.Succeed? ==> StacksFit(c.states, size)
  {
    var prog, captures := Compiled(n, sticky, t), CaptureGroups(n);
    ReachableIsSafe(n, sticky, t, p, c);
    if c.Run? || c.Fail? || c.Succeed? {
      SafeStatesFit(prog, captures, c.states, size);
    }
  }
}
