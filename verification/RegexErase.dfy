/** Forgetting capture groups. A save of a group other than 0 is replaced by an instruction that
    clears nothing; every decision the compiler takes on code is unchanged by that. */
module RegexErase {
  import opened RegexSyntax

  function EraseInstr(i: Instr): (r: Instr) {
    match i
    case ISaveStart(k) => if k > 0 then ISaveReset(1, 0) else i
    case ISaveEnd(k) => if k > 0 then ISaveReset(1, 0) else i
    case ISaveReset(first, _) => if first > 0 then ISaveReset(1, 0) else ISaveReset(0, 0)
    case _ => i
  }

  function Erase(code: seq<Instr>): (r: seq<Instr>)
    ensures |r| == |code|
  {
    seq(|code|, k requires 0 <= k < |code| => EraseInstr(code[k]))
  }

  lemma EraseConcat(a: seq<Instr>, b: seq<Instr>)
    ensures Erase(a + b) == Erase(a) + Erase(b)
  {
  }

  lemma EraseFramed(i: Instr, code: seq<Instr>, j: Instr)
    ensures Erase([i] + code + [j]) == [EraseInstr(i)] + Erase(code) + [EraseInstr(j)]
  {
    EraseConcat([i] + code, [j]);
    EraseConcat([i], code);
    EraseOne(i);
    EraseOne(j);
  }

  lemma EraseOne(i: Instr)
    ensures Erase([i]) == [EraseInstr(i)]
  {
  }

  lemma EraseTwo(i: Instr, j: Instr)
    ensures Erase([i, j]) == [EraseInstr(i), EraseInstr(j)]
  {
  }

  lemma {:induction false} EraseSimple(code: seq<Instr>)
    ensures SimpleCount(Erase(code)) == SimpleCount(code)
    ensures SimpleCount(code) >= 0 ==> Erase(code) == code
  {
    if code != [] {
      assert Erase(code)[1..] == Erase(code[1..]);
      EraseSimple(code[1..]);
      assert SimpleCount(code) >= 0 ==> Erase(code) == [code[0]] + code[1..];
    }
  }

  lemma EraseScan(code: seq<Instr>)
    ensures NeedCheckAdvance(Erase(code)) == NeedCheckAdvance(code)
  {
    var e := Erase(code);
    assert forall k :: 0 <= k < |code| ==> (e[k].IRead? <==> code[k].IRead?);
    assert forall k :: 0 <= k < |code| ==> (IsNeutralOp(e[k]) <==> IsNeutralOp(code[k]));
  }

  lemma EraseBody(atom: seq<Instr>)
    ensures Erase(LoopBody(atom)) == LoopBody(Erase(atom))
  {
    EraseScan(atom);
    EraseFramed(IPushCharPos, atom, ICheckAdvance);
  }

  lemma EraseOptional(atom: seq<Instr>, max: nat, greedy: bool)
    ensures Erase(OptionalCode(atom, max, greedy)) == OptionalCode(Erase(atom), max, greedy)
  {
    var body := LoopBody(atom);
    EraseBody(atom);
    if max == INFINITY {
      EraseFramed(Split(greedy, |body| + 1), body, IGoto(-(|body| + 2)));
    } else {
      EraseConcat([IPushI32(max), Split(greedy, |body| + 1)] + body, [ILoop(-(|body| + 2)), IDrop]);
      EraseConcat([IPushI32(max), Split(greedy, |body| + 1)], body);
      EraseTwo(IPushI32(max), Split(greedy, |body| + 1));
      EraseTwo(ILoop(-(|body| + 2)), IDrop);
    }
  }

  lemma EraseRequired(atom: seq<Instr>, min: nat)
    ensures Erase(RequiredCode(atom, min)) == RequiredCode(Erase(atom), min)
  {
    if min != 1 {
      EraseConcat([IPushI32(min)] + atom, [ILoop(-(|atom| + 1)), IDrop]);
      EraseConcat([IPushI32(min)], atom);
      EraseOne(IPushI32(min));
      EraseTwo(ILoop(-(|atom| + 1)), IDrop);
    }
  }

  /** A quantifier around an erased atom is the erased quantifier. */
  lemma EraseQuant(atom: seq<Instr>, min: nat, max: nat, greedy: bool)
    requires min <= max <= INFINITY
    ensures Erase(QuantCode(atom, min, max, greedy)) == QuantCode(Erase(atom), min, max, greedy)
  {
    EraseSimple(atom);
    EraseScan(atom);
    if greedy && max > 0 && SimpleCount(atom) > 0 {
      EraseFramed(ISimpleGreedy(|atom| + 1, min, max, SimpleCount(atom)), atom, IMatch);
    } else if min == 0 {
      EraseBody(atom);
      EraseOptional(atom, max, greedy);
      EraseConcat([Split(greedy, |LoopBody(atom)|)], LoopBody(atom));
      EraseOne(Split(greedy, |LoopBody(atom)|));
    } else if min == 1 && max == INFINITY && !NeedCheckAdvance(atom) {
      EraseConcat(atom, [Split(!greedy, -(|atom| + 1))]);
      EraseOne(Split(!greedy, -(|atom| + 1)));
    } else {
      EraseRepeated(atom, min, max, greedy);
    }
  }

  lemma EraseRepeated(atom: seq<Instr>, min: nat, max: nat, greedy: bool)
    requires 0 < min <= max <= INFINITY
    ensures Erase(RequiredCode(atom, min)
                  + (if max == INFINITY then OptionalCode(atom, INFINITY, greedy)
                     else if max > min then OptionalCode(atom, max - min, greedy)
                     else []))
         == RequiredCode(Erase(atom), min)
            + (if max == INFINITY then OptionalCode(Erase(atom), INFINITY, greedy)
               else if max > min then OptionalCode(Erase(atom), max - min, greedy)
               else [])
  {
    EraseRequired(atom, min);
    var rest := if max == INFINITY then INFINITY else max - min;
    if rest > 0 {
      EraseOptional(atom, rest, greedy);
      EraseConcat(RequiredCode(atom, min), OptionalCode(atom, rest, greedy));
    } else {
      EraseConcat(RequiredCode(atom, min), []);
    }
  }
}
