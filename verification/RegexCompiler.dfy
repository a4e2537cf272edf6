/** The one-pass compiler: it appends code, inserts instructions in front of code already
    emitted, patches jumps, copies atoms and rotates terms. */
module RegexCompiler {
  import opened RegexSyntax
  import opened RegexSearch
  import RegexStack
  import RegexAtoms

  /** Captures are numbered in the order their groups open, from `first`. */
  ghost predicate Numbered(n: Node, first: nat) {
    match n
    case Seq(l, r) => Numbered(l, first) && Numbered(r, first + Groups(l))
    case Alt(l, r) => Numbered(l, first) && Numbered(r, first + Groups(l))
    case Look(_, _, b) => Numbered(b, first)
    case Quant(a, _, _, _) => Numbered(a, first)
    case Capture(k, b) => k == first && Numbered(b, first + 1)
    case _ => true
  }

  /** The number of capture groups. */
  function Groups(n: Node): (r: nat) {
    match n
    case Seq(l, r) => Groups(l) + Groups(r)
    case Alt(l, r) => Groups(l) + Groups(r)
    case Look(_, _, b) => Groups(b)
    case Quant(a, _, _, _) => Groups(a)
    case Capture(_, b) => 1 + Groups(b)
    case _ => 0
  }

  lemma {:induction false} NumberedRange(n: Node, first: nat)
    requires Numbered(n, first)
    ensures Groups(n) == 0 ==> CaptureEnd(n) == 0
    ensures Groups(n) > 0 ==> CaptureFirst(n) == first && CaptureEnd(n) == first + Groups(n)
  {
    match n
    case Seq(l, r) => NumberedRange(l, first); NumberedRange(r, first + Groups(l));
    case Alt(l, r) => NumberedRange(l, first); NumberedRange(r, first + Groups(l));
    case Look(_, _, b) => NumberedRange(b, first);
    case Quant(a, _, _, _) => NumberedRange(a, first);
    case Capture(k, b) => NumberedRange(b, first + 1);
    case _ =>
  }

  /** No character class has 65535 intervals or more. */
  predicate RangesFit(n: Node) {
    match n
    case Char(test) => test.Class? ==> |test.points| / 2 < 65535
    case Seq(l, r) => RangesFit(l) && RangesFit(r)
    case Alt(l, r) => RangesFit(l) && RangesFit(r)
    case Look(_, _, b) => RangesFit(b)
    case Quant(a, _, _, _) => RangesFit(a)
    case Capture(_, b) => RangesFit(b)
    case _ => true
  }

  /** The bytes an instruction takes. */
  function Size(i: Instr): (n: nat) {
    match i
    case IRead(op) =>
      (match op
       case Exact(c) => if c <= 0x7F then 2 else if c <= 0xFFFF then 3 else 5
       case Range16(pairs) => 3 + 4 * |pairs|
       case Range32(pairs) => 3 + 8 * |pairs|
       case _ => 1)
    case ISaveStart(_) => 2
    case ISaveEnd(_) => 2
    case ISaveReset(_, _) => 3
    case ISimpleGreedy(_, _, _, _) => 17
    case IGoto(_) => 5
    case ISplitGotoFirst(_) => 5
    case ISplitNextFirst(_) => 5
    case ILook(_, _) => 5
    case IPushI32(_) => 5
    case ILoop(_) => 5
    case _ => 1
  }

  function Bytes(code: seq<Instr>): (n: nat) {
    if code == [] then 0 else Bytes(code[..|code| - 1]) + Size(code[|code| - 1])
  }

  lemma {:induction false} BytesConcat(a: seq<Instr>, b: seq<Instr>)
    ensures Bytes(a + b) == Bytes(a) + Bytes(b)
  {
    if b == [] {
      assert a + b == a;
    } else {
      BytesConcat(a, b[..|b| - 1]);
      assert (a + b)[..|a + b| - 1] == a + b[..|b| - 1];
    }
  }

  lemma BytesOne(i: Instr)
    ensures Bytes([i]) == Size(i)
  {
    assert [i][..0] == [];
  }

  /** The flags, the two counts and the length in front of the code. */
  const HEADER_SIZE: nat := 8

  const CODE_SIZE_MAX: nat := 64 * 1024 * 1024

  /** lre_check_size: before each term, alternative and disjunction the buffer is below 64 MB. Instructions that
      are inserted later in front of what is being compiled do not count yet. */
  predicate SizeFits(n: Node, size: nat, backward: bool)
    requires WellFormed(n)
  {
    && size < CODE_SIZE_MAX
    && match n
       case Seq(l, r) => SizeFits(l, size, backward) && SizeFits(r, size + Bytes(Code(l, backward)), backward)
       case Alt(l, r) =>
         SizeFits(l, size, backward) && SizeFits(r, size + (5 + Bytes(Code(l, backward)) + 5), backward)
       case Look(_, back, b) => SizeFits(b, size + 5, back)
       case Quant(a, _, _, _) => SizeFits(a, size, backward)
       case Capture(_, b) => SizeFits(b, size + 2, backward)
       case _ => true
  }

  /** What the compiler accepts, with `captures` groups counted and `size` bytes written before. */
  predicate Accepts(n: Node, captures: nat, size: nat, backward: bool)
    requires WellFormed(n)
  {
    RangesFit(n) && captures + Groups(n) <= CAPTURE_COUNT_MAX && SizeFits(n, size, backward)
  }

  /** The instruction that forgets the captures opened since `first`, needed when the atom may be skipped. */
  function Forgotten(first: nat, count: nat, min: nat): (r: seq<Instr>)
    requires first <= count
  {
    if min == 0 && first != count then [ISaveReset(first, count - 1)] else []
  }

  /** What the quantifier section leaves: the simple form never needs to forget captures. */
  function QuantifiedCode(atom: seq<Instr>, reset: seq<Instr>, min: nat, max: nat, greedy: bool): (r: seq<Instr>)
    requires min <= max <= INFINITY
  {
    (if greedy && max > 0 && SimpleCount(atom) > 0 then [] else reset) + QuantCode(atom, min, max, greedy)
  }

  /** A quantifier with no required iteration, around the loop body `body` of the atom. */
  function SkippableCode(body: seq<Instr>, max: nat, greedy: bool): (r: seq<Instr>) {
    if max == 0 then []
    else if max == 1 then [Split(greedy, |body|)] + body
    else OptionalLoop(body, max, greedy)
  }

  /** The optional iterations after `min` required ones. */
  function TrailingCode(body: seq<Instr>, min: nat, max: nat, greedy: bool): (r: seq<Instr>) {
    if max == INFINITY then OptionalLoop(body, INFINITY, greedy)
    else if max > min then OptionalLoop(body, max - min, greedy)
    else []
  }

  lemma NoReset(code: seq<Instr>)
    ensures [] + code == code
  {
  }

  lemma Associate(a: seq<Instr>, b: seq<Instr>, c: seq<Instr>)
    ensures a + b + c == a + (b + c)
  {
  }

  lemma LookHole(before: seq<Instr>, hole: Instr, inner: seq<Instr>)
    ensures before + [hole] + inner + [IMatch] == before + ([] + [hole]) + (inner + [IMatch])
  {
  }

  lemma Suffix(before: seq<Instr>, after: seq<Instr>)
    ensures (before + after)[|before|..] == after
  {
  }

  lemma LookForm(negated: bool, inner: seq<Instr>)
    ensures [] + [ILook(negated, |inner| + 1)] + (inner + [IMatch]) == [ILook(negated, |inner| + 1)] + inner + [IMatch]
  {
  }

  /** Code that holds a save instruction is not a simple atom. */
  lemma {:induction false} SimpleHasNoSave(code: seq<Instr>, k: nat)
    requires k < |code| && (code[k].ISaveStart? || code[k].ISaveEnd? || code[k].ISaveReset?)
    ensures SimpleCount(code) == -1
  {
    if k > 0 { SimpleHasNoSave(code[1..], k - 1); }
  }

  /** A pattern with groups leaves a trace of them in its code. */
  lemma {:induction false} GroupsLeaveSaves(n: Node, backward: bool)
    requires WellFormed(n) && CaptureEnd(n) > 0
    ensures SimpleCount(Code(n, backward)) == -1
  {
    match n
    case Seq(l, r) =>
      RegexAtoms.SimpleConcat(Code(l, backward), Code(r, backward));
      RegexAtoms.SimpleConcat(Code(r, backward), Code(l, backward));
      if CaptureEnd(l) > 0 { GroupsLeaveSaves(l, backward); } else { GroupsLeaveSaves(r, backward); }
    case Quant(a, min, max, greedy) =>
      GroupsLeaveSaves(a, backward);
      if min == 0 {
        SimpleHasNoSave(Code(n, backward), 0);
      } else {
        QuantKeepsAtom(Code(a, backward), min, max, greedy);
      }
    case _ => RegexAtoms.BranchingCode(n, backward);
  }

  lemma QuantKeepsAtom(atom: seq<Instr>, min: nat, max: nat, greedy: bool)
    requires 0 < min <= max <= INFINITY && SimpleCount(atom) == -1
    ensures SimpleCount([] + QuantCode(atom, min, max, greedy)) == -1
  {
    RegexAtoms.StraightQuant(atom, min, max, greedy);
    NoReset(QuantCode(atom, min, max, greedy));
  }

  lemma CodeOfQuant(n: Node, backward: bool)
    requires n.Quant? && WellFormed(n)
    ensures Code(n, backward) == ResetCode(n.atom, n.min) + QuantCode(Code(n.atom, backward), n.min, n.max, n.greedy)
  {
  }

  lemma CodeOfAlt(n: Node, backward: bool)
    requires n.Alt? && WellFormed(n)
    ensures Code(n, backward) == var first, second := Code(n.left, backward), Code(n.right, backward);
                                 [ISplitNextFirst(|first| + 1)] + first + [IGoto(|second|)] + second
  {
  }

  lemma CodeOfLook(n: Node, backward: bool)
    requires n.Look? && WellFormed(n)
    ensures Code(n, backward) == var inner := Code(n.body, n.backward);
      [ILook(n.negated, |inner| + 1)] + inner + [IMatch]
  {
  }

  lemma CodeOfSeq(n: Node, backward: bool)
    requires n.Seq? && WellFormed(n)
    ensures WellFormed(n.left) && WellFormed(n.right)
    ensures !backward ==> Code(n, backward) == Code(n.left, backward) + Code(n.right, backward)
    ensures backward ==> Code(n, backward) == Code(n.right, backward) + Code(n.left, backward)
  {
  }

  function Opening(index: nat, backward: bool): (i: Instr) {
    if backward then ISaveEnd(index) else ISaveStart(index)
  }

  function Closing(index: nat, backward: bool): (i: Instr) {
    if backward then ISaveStart(index) else ISaveEnd(index)
  }

  lemma CodeOfCapture(n: Node, backward: bool)
    requires n.Capture? && WellFormed(n)
    ensures WellFormed(n.body)
    ensures Code(n, backward) == [Opening(n.index, backward)] + Code(n.body, backward) + [Closing(n.index, backward)]
  {
  }

  /** A sequence or an alternation as the compiler goes through it. */
  lemma PairParts(n: Node, first: nat)
    requires (n.Seq? || n.Alt?) && WellFormed(n) && Numbered(n, first)
    ensures WellFormed(n.left) && WellFormed(n.right)
    ensures Numbered(n.left, first) && Numbered(n.right, first + Groups(n.left))
    ensures Groups(n) == Groups(n.left) + Groups(n.right)
  {
  }

  lemma PairAccepted(n: Node, first: nat, size: nat, backward: bool, next: nat)
    requires (n.Seq? || n.Alt?) && WellFormed(n) && WellFormed(n.left) && WellFormed(n.right) && size < CODE_SIZE_MAX
    requires next == size + Bytes(Code(n.left, backward)) + if n.Alt? then 10 else 0
    ensures Accepts(n, first, size, backward) <==>
              && Accepts(n.left, first, size, backward)
              && Accepts(n.right, first + Groups(n.left), next, backward)
    ensures Accepts(n.left, first, size, backward) ==> first + Groups(n.left) <= CAPTURE_COUNT_MAX
  {
    hide Code, Bytes, WellFormed;
  }

  lemma CaptureParts(n: Node, first: nat, size: nat, backward: bool)
    requires n.Capture? && WellFormed(n) && Numbered(n, first) && size < CODE_SIZE_MAX
    ensures WellFormed(n.body) && n.index == first && Numbered(n.body, first + 1) && Groups(n) == 1 + Groups(n.body)
    ensures Accepts(n, first, size, backward) <==>
              first < CAPTURE_COUNT_MAX && Accepts(n.body, first + 1, size + 2, backward)
  {
    hide Code, Bytes;
  }

  lemma ResetForm(atom: Node, first: nat, min: nat)
    requires Numbered(atom, first)
    ensures Forgotten(first, first + Groups(atom), min) == ResetCode(atom, min)
  {
    hide Groups, Numbered, CaptureEnd, CaptureFirst;
    NumberedRange(atom, first);
  }

  /** The compiler's count of captures gives the reset its bounds. */
  lemma QuantForm(n: Node, backward: bool, first: nat)
    requires n.Quant? && WellFormed(n) && Numbered(n, first)
    ensures QuantifiedCode(Code(n.atom, backward), Forgotten(first, first + Groups(n), n.min), n.min, n.max, n.greedy)
         == Code(n, backward)
  {
    hide Code, QuantCode, SimpleCount, CaptureEnd, CaptureFirst, Forgotten;
    CodeOfQuant(n, backward);
    ResetForm(n.atom, first, n.min);
    if CaptureEnd(n.atom) > 0 { GroupsLeaveSaves(n.atom, backward); }
  }

  lemma ProgramForm(n: Node, sticky: bool)
    requires WellFormed(n)
    ensures SearchPrefix(sticky) + [ISaveStart(0)] + Code(n, false) + [ISaveEnd(0), IMatch] == ProgramCode(n, sticky)
  {
  }

  lemma AlternativeBytes(before: seq<Instr>, split: Instr, first: seq<Instr>)
    requires split.ISplitNextFirst?
    ensures Bytes(before + ([split] + first + [IGoto(0)])) == Bytes(before) + (5 + Bytes(first) + 5)
  {
    BytesConcat(before, [split] + first + [IGoto(0)]);
    BytesConcat([split] + first, [IGoto(0)]);
    BytesConcat([split], first);
    BytesOne(split);
    BytesOne(IGoto(0));
  }

  lemma OpeningBytes(before: seq<Instr>, index: nat, backward: bool)
    ensures Bytes(before + [Opening(index, backward)]) == Bytes(before) + 2
  {
    BytesConcat(before, [Opening(index, backward)]);
    BytesOne(Opening(index, backward));
  }

  /** The search loop, and the start of capture 0. */
  lemma PrefixBytes(sticky: bool)
    ensures Bytes(SearchPrefix(sticky) + [ISaveStart(0)]) == if sticky then 2 else 13
  {
    BytesConcat(SearchPrefix(sticky), [ISaveStart(0)]);
    BytesOne(ISaveStart(0));
    if !sticky {
      var a, b, c := ISplitGotoFirst(2), IRead(AnyChar), IGoto(-3);
      assert SearchPrefix(sticky) == [a] + [b] + [c];
      BytesConcat([a] + [b], [c]);
      BytesConcat([a], [b]);
      BytesOne(a);
      BytesOne(b);
      BytesOne(c);
    }
  }

  /** The bytes in front of the pattern itself. */
  function StartSize(sticky: bool): (n: nat) { HEADER_SIZE + if sticky then 2 else 13 }

  /** "too many captures" is reported at this count. */
  const CAPTURE_COUNT_MAX: nat := 255

  datatype Result = Compiled(code: seq<Instr>, captureCount: nat, stackSize: nat) | Rejected | TooManyStates

  class Compiler {
    var byteCode: seq<Instr>
    var captureCount: nat

    constructor ()
      ensures byteCode == [] && captureCount == 1
    {
      byteCode := [];
      captureCount := 1;
    }

    /** dbuf_insert followed by writing the inserted instructions. */
    method Insert(ghost before: seq<Instr>, ghost after: seq<Instr>, pos: nat, code: seq<Instr>)
      requires byteCode == before + after && pos == |before|
      modifies this`byteCode
      ensures byteCode == before + (code + after)
    {
      byteCode := byteCode[..pos] + code + byteCode[pos..];
    }

    method Truncate(ghost before: seq<Instr>, ghost after: seq<Instr>, pos: nat)
      requires byteCode == before + after && pos == |before|
      modifies this`byteCode
      ensures byteCode == before + []
    {
      byteCode := byteCode[..pos];
    }

    method Emit(ghost before: seq<Instr>, ghost after: seq<Instr>, code: seq<Instr>)
      requires byteCode == before + after
      modifies this`byteCode
      ensures byteCode == before + (after + code)
    {
      byteCode := byteCode + code;
    }

    /** re_emit_range: the choice between the two encodings, and its size limit. */
    method EmitChar(test: CharTest, backward: bool) returns (ok: bool)
      requires WellFormedTest(test)
      modifies this`byteCode
      ensures ok <==> RangesFit(Char(test))
      ensures ok ==> byteCode == old(byteCode) + CharCode(TestOp(test), backward)
    {
      if test.Class? && |test.points| / 2 >= 65535 {
        return false;
      }
      if backward { byteCode := byteCode + [IPrev]; }
      byteCode := byteCode + [IRead(TestOp(test))];
      if backward { byteCode := byteCode + [IPrev]; }
      return true;
    }

    /** The quantifier part of re_parse_term, on the atom that starts at `start`. */
    method EmitQuantifier(ghost before: seq<Instr>, atom: seq<Instr>, start: nat, lastCaptureCount: nat,
                          min: nat, max: nat, greedy: bool)
      requires byteCode == before + atom && start == |before|
      requires min <= max <= INFINITY && lastCaptureCount <= captureCount
      modifies this`byteCode
      ensures byteCode
        == before + QuantifiedCode(atom, Forgotten(lastCaptureCount, captureCount, min), min, max, greedy)
    {
      if greedy && max > 0 && SimpleCount(atom) > 0 {
        Emit(before, atom, [IMatch]);
        Insert(before, atom + [IMatch], start, [ISimpleGreedy(|atom| + 1, min, max, SimpleCount(atom))]);
        Associate([ISimpleGreedy(|atom| + 1, min, max, SimpleCount(atom))], atom, [IMatch]);
        NoReset(QuantCode(atom, min, max, greedy));
      } else if min == 0 {
        EmitOptional(before, atom, start, lastCaptureCount, max, greedy);
      } else if min == 1 && max == INFINITY && !NeedCheckAdvance(atom) {
        Emit(before, atom, [Split(!greedy, start - (|byteCode| + 1))]);
        NoReset(QuantCode(atom, min, max, greedy));
      } else {
        EmitRequired(before, atom, start, min, max, greedy);
        NoReset(QuantCode(atom, min, max, greedy));
      }
    }

    method EmitOptional(ghost before: seq<Instr>, atom: seq<Instr>, start: nat, lastCaptureCount: nat,
                        max: nat, greedy: bool)
      requires byteCode == before + atom && start == |before| && max <= INFINITY && lastCaptureCount <= captureCount
      modifies this`byteCode
      ensures byteCode
           == before + (Forgotten(lastCaptureCount, captureCount, 0) + SkippableCode(LoopBody(atom), max, greedy))
    {
      var reset := Forgotten(lastCaptureCount, captureCount, 0);
      Insert(before, atom, start, reset);
      Associate(before, reset, atom);
      EmitSkippable(before + reset, atom, start + |reset|, max, greedy);
      Associate(before, reset, SkippableCode(LoopBody(atom), max, greedy));
    }

    /** Puts `head` in front of the atom, and the test that the atom advances around it. */
    method Surround(ghost before: seq<Instr>, atom: seq<Instr>, start: nat, head: seq<Instr>, check: bool)
      requires byteCode == before + atom && start == |before| && check == NeedCheckAdvance(atom)
      modifies this`byteCode
      ensures byteCode == before + (head + LoopBody(atom))
    {
      Insert(before, atom, start, if check then head + [IPushCharPos] else head);
      if check {
        byteCode := byteCode + [ICheckAdvance];
        assert byteCode == before + (head + ([IPushCharPos] + atom + [ICheckAdvance]));
      }
    }

    /** Zero required iterations: the split goes in front of the atom already emitted. */
    method EmitSkippable(ghost before: seq<Instr>, atom: seq<Instr>, start: nat, max: nat, greedy: bool)
      requires byteCode == before + atom && start == |before| && max <= INFINITY
      modifies this`byteCode
      ensures byteCode == before + SkippableCode(LoopBody(atom), max, greedy)
    {
      var check := NeedCheckAdvance(atom);
      var bodyLength := if check then |atom| + 2 else |atom|;
      if max == 0 {
        Truncate(before, atom, start);
      } else if max == 1 || max == INFINITY {
        var hasGoto := if max == INFINITY then 1 else 0;
        Surround(before, atom, start, [Split(greedy, bodyLength + hasGoto)], check);
        if max == INFINITY {
          Emit(before, [Split(greedy, bodyLength + 1)] + LoopBody(atom), [IGoto(start - (|byteCode| + 1))]);
        }
      } else {
        Surround(before, atom, start, [IPushI32(max), Split(greedy, bodyLength + 1)], check);
        Emit(before, [IPushI32(max), Split(greedy, bodyLength + 1)] + LoopBody(atom),
             [ILoop(start + 1 - (|byteCode| + 1)), IDrop]);
      }
    }

    /** dbuf_put_self: a second copy of the atom, behind `head`. */
    method Copy(atom: seq<Instr>, head: seq<Instr>, check: bool)
      requires check == NeedCheckAdvance(atom)
      modifies this`byteCode
      ensures byteCode == old(byteCode) + (head + LoopBody(atom))
    {
      ghost var before := byteCode;
      byteCode := byteCode + head;
      if check { byteCode := byteCode + [IPushCharPos]; }
      byteCode := byteCode + atom;
      if check {
        byteCode := byteCode + [ICheckAdvance];
        assert byteCode == before + (head + ([IPushCharPos] + atom + [ICheckAdvance]));
      }
    }

    /** At least one required iteration: a counted loop around the atom, then a copy of the atom
        for the optional ones. */
    method EmitRequired(ghost before: seq<Instr>, atom: seq<Instr>, start: nat, min: nat, max: nat, greedy: bool)
      requires byteCode == before + atom && start == |before| && 0 < min <= max <= INFINITY
      modifies this`byteCode
      ensures byteCode == before + (RequiredCode(atom, min) + TrailingCode(LoopBody(atom), min, max, greedy))
    {
      if min != 1 {
        Insert(before, atom, start, [IPushI32(min)]);
        Emit(before, [IPushI32(min)] + atom, [ILoop(start + 1 - (|byteCode| + 1)), IDrop]);
      }
      EmitTrailing(atom, min, max, greedy);
      Associate(before, RequiredCode(atom, min), TrailingCode(LoopBody(atom), min, max, greedy));
    }

    method EmitTrailing(atom: seq<Instr>, min: nat, max: nat, greedy: bool)
      requires 0 < min <= max <= INFINITY
      modifies this`byteCode
      ensures byteCode == old(byteCode) + TrailingCode(LoopBody(atom), min, max, greedy)
    {
      ghost var before := byteCode;
      var check := NeedCheckAdvance(atom);
      var bodyLength := if check then |atom| + 2 else |atom|;
      if max == INFINITY {
        var pos := |byteCode|;
        Copy(atom, [Split(greedy, bodyLength + 1)], check);
        Emit(before, [Split(greedy, bodyLength + 1)] + LoopBody(atom), [IGoto(pos - (|byteCode| + 1))]);
      } else if max > min {
        var pos := |byteCode| + 1;
        Copy(atom, [IPushI32(max - min), Split(greedy, bodyLength + 1)], check);
        Emit(before, [IPushI32(max - min), Split(greedy, bodyLength + 1)] + LoopBody(atom),
             [ILoop(pos - (|byteCode| + 1)), IDrop]);
      }
    }

    /** re_parse_disjunction, re_parse_alternative and re_parse_term, on a parsed pattern whose
        groups are numbered in the order they open. */
    method Compile(n: Node, backward: bool) returns (ok: bool)
      requires WellFormed(n) && Numbered(n, captureCount) && captureCount <= CAPTURE_COUNT_MAX
      modifies this
      ensures ok <==> Accepts(n, old(captureCount), HEADER_SIZE + old(Bytes(byteCode)), backward)
      ensures ok ==> byteCode == old(byteCode) + Code(n, backward) && captureCount == old(captureCount) + Groups(n)
      decreases n, 1
    {
      if HEADER_SIZE + Bytes(byteCode) >= CODE_SIZE_MAX { return false; }
      match n
      case Char(test) => ok := EmitChar(test, backward);
      case Assert(kind) => byteCode := byteCode + [IAssert(kind)]; ok := true;
      case Empty => ok := true;
      case Seq(_, _) => ok := CompileSeq(n, backward);
      case Alt(_, _) => ok := CompileAlt(n, backward);
      case Look(_, _, _) => ok := CompileLook(n, backward);
      case Quant(_, _, _, _) => ok := CompileQuant(n, backward);
      case Capture(_, _) => ok := CompileCapture(n, backward);
    }

    /** Terms of an alternative; read backwards, each is moved in front of the earlier ones. */
    method CompileSeq(n: Node, backward: bool) returns (ok: bool)
      requires n.Seq? && WellFormed(n) && Numbered(n, captureCount) && captureCount <= CAPTURE_COUNT_MAX
      requires HEADER_SIZE + Bytes(byteCode) < CODE_SIZE_MAX
      modifies this
      ensures ok <==> Accepts(n, old(captureCount), HEADER_SIZE + old(Bytes(byteCode)), backward)
      ensures ok ==> byteCode == old(byteCode) + Code(n, backward) && captureCount == old(captureCount) + Groups(n)
      decreases n, 0
    {
      hide Code, Accepts, Groups, Numbered, WellFormed, Bytes;
      PairParts(n, captureCount);
      PairAccepted(n, captureCount, HEADER_SIZE + Bytes(byteCode), backward,
                   HEADER_SIZE + Bytes(byteCode) + Bytes(Code(n.left, backward)));
      CodeOfSeq(n, backward);
      ghost var before := byteCode;
      var start := |byteCode|;
      ok := Compile(n.left, backward);
      if !ok { return; }
      var termStart := |byteCode|;
      BytesConcat(before, Code(n.left, backward));
      ok := Compile(n.right, backward);
      if !ok { return; }
      Associate(before, Code(n.left, backward), Code(n.right, backward));
      if backward {
        Rotate(before, Code(n.left, backward), Code(n.right, backward), start, termStart);
      }
    }

    method Rotate(ghost before: seq<Instr>, ghost left: seq<Instr>, ghost right: seq<Instr>, start: nat, termStart: nat)
      requires byteCode == before + (left + right) && start == |before| && termStart == |before| + |left|
      modifies this`byteCode
      ensures byteCode == before + (right + left)
    {
      byteCode := byteCode[..start] + byteCode[termStart..] + byteCode[start..termStart];
    }

    method CompileAlt(n: Node, backward: bool) returns (ok: bool)
      requires n.Alt? && WellFormed(n) && Numbered(n, captureCount) && captureCount <= CAPTURE_COUNT_MAX
      requires HEADER_SIZE + Bytes(byteCode) < CODE_SIZE_MAX
      modifies this
      ensures ok <==> Accepts(n, old(captureCount), HEADER_SIZE + old(Bytes(byteCode)), backward)
      ensures ok ==> byteCode == old(byteCode) + Code(n, backward) && captureCount == old(captureCount) + Groups(n)
      decreases n, 0
    {
      hide Code, Accepts, Groups, Numbered, WellFormed, Bytes;
      PairParts(n, captureCount);
      PairAccepted(n, captureCount, HEADER_SIZE + Bytes(byteCode), backward,
                   HEADER_SIZE + Bytes(byteCode) + Bytes(Code(n.left, backward)) + 10);
      ghost var before, first := byteCode, Code(n.left, backward);
      var start := |byteCode|;
      ok := Compile(n.left, backward);
      if !ok { return; }
      var split := ISplitNextFirst(|byteCode| - start + 1);
      var pos := OpenAlternative(before, first, start, split);
      AlternativeBytes(before, split, first);
      ok := Compile(n.right, backward);
      if !ok { return; }
      CloseAlternative(n, backward, before, split, pos);
    }

    method CloseAlternative(ghost n: Node, ghost backward: bool, ghost before: seq<Instr>, ghost split: Instr, pos: nat)
      requires n.Alt? && WellFormed(n) && split == ISplitNextFirst(|Code(n.left, backward)| + 1)
      requires byteCode == before + ([split] + Code(n.left, backward) + [IGoto(0)]) + Code(n.right, backward)
      requires pos == |before| + |[split] + Code(n.left, backward)|
      modifies this`byteCode
      ensures byteCode == before + Code(n, backward)
    {
      Patch(before, [split] + Code(n.left, backward), IGoto(0), Code(n.right, backward), pos,
            IGoto(|byteCode| - (pos + 1)));
      CodeOfAlt(n, backward);
    }

    /** A split in front of the first alternative and a jump, to be patched, behind it. */
    method OpenAlternative(ghost before: seq<Instr>, ghost first: seq<Instr>, start: nat, split: Instr)
          returns (pos: nat)
      requires byteCode == before + first && start == |before|
      modifies this`byteCode
      ensures byteCode == before + ([split] + first + [IGoto(0)]) && pos == |before| + |[split] + first|
    {
      Insert(before, first, start, [split]);
      pos := |byteCode|;
      Emit(before, [split] + first, [IGoto(0)]);
    }

    /** put_u32 over the placeholder of an instruction already emitted. */
    method Patch(ghost before: seq<Instr>, ghost middle: seq<Instr>, ghost hole: Instr, ghost after: seq<Instr>,
                 pos: nat, i: Instr)
      requires byteCode == before + (middle + [hole]) + after
      requires pos == |before| + |middle|
      modifies this`byteCode
      ensures byteCode == before + (middle + [i] + after)
    {
      byteCode := byteCode[pos := i];
    }

    method CompileLook(n: Node, backward: bool) returns (ok: bool)
      requires n.Look? && WellFormed(n) && Numbered(n, captureCount) && captureCount <= CAPTURE_COUNT_MAX
      requires HEADER_SIZE + Bytes(byteCode) < CODE_SIZE_MAX
      modifies this
      ensures ok <==> Accepts(n, old(captureCount), HEADER_SIZE + old(Bytes(byteCode)), backward)
      ensures ok ==> byteCode == old(byteCode) + Code(n, backward) && captureCount == old(captureCount) + Groups(n)
      decreases n, 0
    {
      ghost var before := byteCode;
      var pos := |byteCode|;
      byteCode := byteCode + [ILook(n.negated, 0)];
      BytesConcat(before, [ILook(n.negated, 0)]);
      BytesOne(ILook(n.negated, 0));
      ok := Compile(n.body, n.backward);
      if !ok { return; }
      CloseLook(n, backward, before, pos);
    }

    method CloseLook(n: Node, ghost backward: bool, ghost before: seq<Instr>, pos: nat)
      requires n.Look? && WellFormed(n)
      requires byteCode == before + [ILook(n.negated, 0)] + Code(n.body, n.backward) && pos == |before|
      modifies this`byteCode
      ensures byteCode == before + Code(n, backward)
    {
      CodeOfLook(n, backward);
      hide Code;
      ghost var inner := Code(n.body, n.backward);
      byteCode := byteCode + [IMatch];
      LookHole(before, ILook(n.negated, 0), inner);
      Patch(before, [], ILook(n.negated, 0), inner + [IMatch], pos, ILook(n.negated, |byteCode| - (pos + 1)));
      LookForm(n.negated, inner);
    }

    method CompileCapture(n: Node, backward: bool) returns (ok: bool)
      requires n.Capture? && WellFormed(n) && Numbered(n, captureCount) && captureCount <= CAPTURE_COUNT_MAX
      requires HEADER_SIZE + Bytes(byteCode) < CODE_SIZE_MAX
      modifies this
      ensures ok <==> Accepts(n, old(captureCount), HEADER_SIZE + old(Bytes(byteCode)), backward)
      ensures ok ==> byteCode == old(byteCode) + Code(n, backward) && captureCount == old(captureCount) + Groups(n)
      decreases n, 0
    {
      hide Code, Accepts, Groups, Numbered, WellFormed, Bytes;
      CaptureParts(n, captureCount, HEADER_SIZE + Bytes(byteCode), backward);
      if captureCount >= CAPTURE_COUNT_MAX { return false; }
      ghost var before := byteCode;
      var index := captureCount;
      captureCount := captureCount + 1;
      byteCode := byteCode + [Opening(index, backward)];
      OpeningBytes(before, index, backward);
      ok := Compile(n.body, backward);
      if !ok { return; }
      CloseCapture(n, backward, before, index);
    }

    method CloseCapture(ghost n: Node, backward: bool, ghost before: seq<Instr>, index: nat)
      requires n.Capture? && WellFormed(n) && index == n.index && WellFormed(n.body)
      requires byteCode == before + [Opening(index, backward)] + Code(n.body, backward)
      modifies this`byteCode
      ensures byteCode == before + Code(n, backward)
    {
      hide Code, WellFormed, Opening, Closing;
      CodeOfCapture(n, backward);
      Associate(before, [Opening(index, backward)], Code(n.body, backward));
      Emit(before, [Opening(index, backward)] + Code(n.body, backward), [Closing(index, backward)]);
    }

    method CompileQuant(n: Node, backward: bool) returns (ok: bool)
      requires n.Quant? && WellFormed(n) && Numbered(n, captureCount) && captureCount <= CAPTURE_COUNT_MAX
      requires HEADER_SIZE + Bytes(byteCode) < CODE_SIZE_MAX
      modifies this
      ensures ok <==> Accepts(n, old(captureCount), HEADER_SIZE + old(Bytes(byteCode)), backward)
      ensures ok ==> byteCode == old(byteCode) + Code(n, backward) && captureCount == old(captureCount) + Groups(n)
      decreases n, 0
    {
      ghost var before := byteCode;
      var atomStart, lastCaptureCount := |byteCode|, captureCount;
      ok := Compile(n.atom, backward);
      if !ok { return; }
      Quantify(n, backward, before, atomStart, lastCaptureCount);
    }

    method Quantify(n: Node, backward: bool, ghost before: seq<Instr>, atomStart: nat, lastCaptureCount: nat)
      requires n.Quant? && WellFormed(n) && Numbered(n, lastCaptureCount)
        && captureCount == lastCaptureCount + Groups(n)
      requires byteCode == before + Code(n.atom, backward) && atomStart == |before|
      modifies this`byteCode
      ensures byteCode == before + Code(n, backward)
    {
      hide Code, QuantifiedCode, Forgotten, Numbered, Groups;
      Suffix(before, Code(n.atom, backward));
      EmitQuantifier(before, byteCode[atomStart..], atomStart, lastCaptureCount, n.min, n.max, n.greedy);
      QuantForm(n, backward, lastCaptureCount);
    }
  }

  /** lre_compile: the search loop unless the pattern is sticky, capture 0 around the pattern, a
      final match, and the stack size of the result. */
  method CompilePattern(n: Node, sticky: bool) returns (result: Result)
    requires WellFormed(n) && Numbered(n, 1)
    ensures result.Compiled? ==> Accepts(n, 1, StartSize(sticky), false)
    ensures result.Compiled? ==> result.code == ProgramCode(n, sticky) && result.captureCount == 1 + Groups(n)
    ensures result.Compiled? ==> 0 <= result.stackSize <= RegexStack.STACK_SIZE_MAX
                                 && forall k :: 0 <= k <= |result.code| ==>
                                   RegexStack.Depth(result.code, k) <= result.stackSize
    ensures result.TooManyStates? <==>
              Accepts(n, 1, StartSize(sticky), false)
              && exists k :: 0 <= k <= |ProgramCode(n, sticky)|
                             && RegexStack.Depth(ProgramCode(n, sticky), k) > RegexStack.STACK_SIZE_MAX
    ensures result.Rejected? <==> !Accepts(n, 1, StartSize(sticky), false)
  {
    hide Code, Accepts, Numbered, Bytes, RegexStack.Depth;
    var c := new Compiler();
    if !sticky {
      c.byteCode := [ISplitGotoFirst(2), IRead(AnyChar), IGoto(-3)];
    }
    c.byteCode := c.byteCode + [ISaveStart(0)];
    PrefixBytes(sticky);
    assert c.byteCode == SearchPrefix(sticky) + [ISaveStart(0)];
    var ok := c.Compile(n, false);
    if !ok { return Rejected; }
    c.byteCode := c.byteCode + [ISaveEnd(0), IMatch];
    ProgramForm(n, sticky);
    RegexStack.BalancedProgram(n, sticky, RegexStack.CaptureGroups(n));
    var size := RegexStack.ComputeStackSize(c.byteCode, RegexStack.CaptureGroups(n));
    if size == -1 { return TooManyStates; }
    return Compiled(c.byteCode, c.captureCount, size);
  }
}
