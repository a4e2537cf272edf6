/** Patterns, the instructions they compile to, and the code of a pattern. */
module RegexSyntax {
  import CharSets
  import opened Extremes

  /** A quantifier bound of INFINITY (INT32_MAX in the parser) means "no upper bound". */
  const INFINITY: nat := 0x7FFF_FFFF

  /** What a single-character term tests. `Dot(all)` is '.', `all` being the dotAll flag;
      `Class(points)` is a character set given by its sorted interval endpoints. */
  datatype CharTest = One(c: nat) | Dot(all: bool) | Class(points: seq<nat>)

  datatype Assertion = LineStart | LineEnd | WordBoundary(negated: bool)

  /** A parsed pattern. */
  datatype Node =
    | Char(test: CharTest)
    | Assert(kind: Assertion)
    | Empty
    | Seq(left: Node, right: Node)
    | Alt(left: Node, right: Node)
    | Look(negated: bool, backward: bool, body: Node)
    | Quant(atom: Node, min: nat, max: nat, greedy: bool)
    | Capture(index: nat, body: Node)

  /** The character-reading opcodes. */
  datatype CharOp =
    | Exact(c: nat)
    | NotLineTerminator
    | AnyChar
    | Range16(pairs: seq<(nat, nat)>)
    | Range32(pairs: seq<(nat, nat)>)

  /** Jump offsets are relative to the instruction after the jump, counted in instructions. */
  datatype Instr =
    | IRead(op: CharOp)
    | IAssert(kind: Assertion)
    | IPrev
    | IGoto(offset: int)
    | ISplitGotoFirst(offset: int)
    | ISplitNextFirst(offset: int)
    | ILook(negated: bool, offset: int)
    | IMatch
    | ISaveStart(index: nat)
    | ISaveEnd(index: nat)
    | ISaveReset(first: nat, last: nat)
    | IPushI32(value: nat)
    | IDrop
    | ILoop(offset: int)
    | IPushCharPos
    | ICheckAdvance
    | ISimpleGreedy(offset: int, min: nat, max: nat, charCount: nat)

  /** re_is_simple_quantifier: the number of character reads when the code holds only
      character reads and assertions, and -1 otherwise. */
  function SimpleCount(code: seq<Instr>): (count: int)
    ensures -1 <= count
  {
    if code == [] then 0
    else
      var rest := SimpleCount(code[1..]);
      if rest < 0 then -1
      else if code[0].IRead? then rest + 1
      else if code[0].IAssert? then rest
      else -1
  }

  /** Instructions the zero-advance scan passes over without drawing a conclusion. */
  predicate IsNeutralOp(i: Instr) {
    i.IAssert? || i.IPushI32? || i.IPushCharPos? || i.IDrop? || i.IPrev?
    || i.ISaveStart? || i.ISaveEnd? || i.ISaveReset?
  }

  /** Every instruction is one the zero-advance scan can predict. */
  predicate Predictable(code: seq<Instr>) {
    forall i :: 0 <= i < |code| ==> code[i].IRead? || IsNeutralOp(code[i])
  }

  /** re_need_check_advance: false only when the code certainly moves the pointer. */
  predicate NeedCheckAdvance(code: seq<Instr>) {
    !Predictable(code) || forall i :: 0 <= i < |code| ==> !code[i].IRead?
  }

  /** The endpoint list of a character set: increasing, of even length, within 32 bits. */
  predicate CanonicalPoints(points: seq<nat>) {
    CharSets.Canonical(points) && CharSets.UpTo(points, CharSets.UINT32_MAX)
  }

  /** The intervals of an endpoint list, upper bounds made inclusive; in the 16-bit form the
      open upper bound UINT32_MAX is written 0xFFFF. */
  function RangePairs(points: seq<nat>, narrow: bool): (r: seq<(nat, nat)>)
    requires CanonicalPoints(points)
  {
    if points == [] then []
    else
      assert points[0] < points[1];
      var high := if narrow && points[1] == 0xFFFF_FFFF then 0xFFFF else points[1] - 1;
      [(points[0], high)] + RangePairs(points[2..], narrow)
  }

  /** re_emit_range: the largest finite endpoint decides between the two forms. */
  predicate UsesNarrowForm(points: seq<nat>)
    requires CanonicalPoints(points) && points != []
  {
    var last := points[|points| - 1];
    (if last == 0xFFFF_FFFF then points[|points| - 2] else last) <= 0xFFFF
  }

  function RangeOp(points: seq<nat>): (r: CharOp)
    requires CanonicalPoints(points)
  {
    if points == [] then Exact(0xFFFF_FFFF)
    else if UsesNarrowForm(points) then Range16(RangePairs(points, true))
    else Range32(RangePairs(points, false))
  }

  predicate WellFormedTest(test: CharTest) {
    match test
    case One(c) => c <= 0x10_FFFF
    case Dot(_) => true
    case Class(points) => CanonicalPoints(points)
  }

  /** A node whose character sets are canonical and whose bounds and group numbers are those the parser makes. */
  predicate WellFormed(n: Node) {
    match n
    case Char(test) => WellFormedTest(test)
    case Seq(l, r) => WellFormed(l) && WellFormed(r)
    case Alt(l, r) => WellFormed(l) && WellFormed(r)
    case Look(_, _, b) => WellFormed(b)
    case Quant(a, min, max, _) => min <= max <= INFINITY && WellFormed(a)
    case Capture(k, b) => k > 0 && WellFormed(b)
    case _ => true
  }

  /** One past the largest capture index used in a node, and 0 when it has none. */
  function CaptureEnd(n: Node): (r: nat) {
    match n
    case Seq(l, r) => Max(CaptureEnd(l), CaptureEnd(r))
    case Alt(l, r) => Max(CaptureEnd(l), CaptureEnd(r))
    case Look(_, _, b) => CaptureEnd(b)
    case Quant(a, _, _, _) => CaptureEnd(a)
    case Capture(k, b) => Max(k + 1, CaptureEnd(b))
    case _ => 0
  }

  /** The smallest capture index used in a node that has captures. */
  function CaptureFirst(n: Node): (r: nat) {
    match n
    case Seq(l, r) => MinFirst(CaptureEnd(l) > 0, CaptureFirst(l), CaptureEnd(r) > 0, CaptureFirst(r))
    case Alt(l, r) => MinFirst(CaptureEnd(l) > 0, CaptureFirst(l), CaptureEnd(r) > 0, CaptureFirst(r))
    case Look(_, _, b) => CaptureFirst(b)
    case Quant(a, _, _, _) => CaptureFirst(a)
    case Capture(k, b) => if CaptureEnd(b) > 0 && CaptureFirst(b) < k then CaptureFirst(b) else k
    case _ => 0
  }

  function MinFirst(hasLeft: bool, left: nat, hasRight: bool, right: nat): (r: nat) {
    if hasLeft && (!hasRight || left <= right) then left else right
  }

  function TestOp(test: CharTest): (r: CharOp)
    requires WellFormedTest(test)
  {
    match test
    case One(c) => Exact(c)
    case Dot(all) => if all then AnyChar else NotLineTerminator
    case Class(points) => RangeOp(points)
  }

  /** Going backwards a character is read by stepping back, reading, and stepping back. */
  function CharCode(op: CharOp, backward: bool): (r: seq<Instr>) {
    if backward then [IPrev, IRead(op), IPrev] else [IRead(op)]
  }

  function Split(greedy: bool, offset: int): (r: Instr) {
    if greedy then ISplitNextFirst(offset) else ISplitGotoFirst(offset)
  }

  /** One optional iteration: the atom, guarded against an empty iteration when needed. */
  function LoopBody(atom: seq<Instr>): (r: seq<Instr>) {
    if NeedCheckAdvance(atom) then [IPushCharPos] + atom + [ICheckAdvance] else atom
  }

  /** Up to `max` more iterations of a loop body; INFINITY loops without a counter. */
  function OptionalLoop(body: seq<Instr>, max: nat, greedy: bool): (r: seq<Instr>) {
    if max == INFINITY then
      [Split(greedy, |body| + 1)] + body + [IGoto(-(|body| + 2))]
    else
      [IPushI32(max), Split(greedy, |body| + 1)] + body + [ILoop(-(|body| + 2)), IDrop]
  }

  function OptionalCode(atom: seq<Instr>, max: nat, greedy: bool): (r: seq<Instr>) {
    OptionalLoop(LoopBody(atom), max, greedy)
  }

  /** Exactly `min` iterations, `min` at least 1. */
  function RequiredCode(atom: seq<Instr>, min: nat): (r: seq<Instr>) {
    if min == 1 then atom
    else [IPushI32(min)] + atom + [ILoop(-(|atom| + 1)), IDrop]
  }

  function QuantCode(atom: seq<Instr>, min: nat, max: nat, greedy: bool): (r: seq<Instr>)
    requires min <= max <= INFINITY
  {
    if greedy && max > 0 && SimpleCount(atom) > 0 then
      [ISimpleGreedy(|atom| + 1, min, max, SimpleCount(atom))] + atom + [IMatch]
    else if min == 0 then
      if max == 0 then []
      else if max == 1 then [Split(greedy, |LoopBody(atom)|)] + LoopBody(atom)
      else OptionalCode(atom, max, greedy)
    else if min == 1 && max == INFINITY && !NeedCheckAdvance(atom) then
      atom + [Split(!greedy, -(|atom| + 1))]
    else
      RequiredCode(atom, min)
      + (if max == INFINITY then OptionalCode(atom, INFINITY, greedy)
         else if max > min then OptionalCode(atom, max - min, greedy)
         else [])
  }

  /** A quantifier that may skip its atom first forgets the captures inside it. */
  function ResetCode(atom: Node, min: nat): (r: seq<Instr>) {
    if min == 0 && CaptureEnd(atom) > 0 then [ISaveReset(CaptureFirst(atom), CaptureEnd(atom) - 1)] else []
  }

  /** The code of a pattern, read forwards or backwards. */
  function Code(n: Node, backward: bool): (r: seq<Instr>)
    requires WellFormed(n)
  {
    match n
    case Char(test) => CharCode(TestOp(test), backward)
    case Assert(kind) => [IAssert(kind)]
    case Empty => []
    case Seq(l, r) =>
      if backward then Code(r, backward) + Code(l, backward) else Code(l, backward) + Code(r, backward)
    case Alt(l, r) =>
      var first, second := Code(l, backward), Code(r, backward);
      [ISplitNextFirst(|first| + 1)] + first + [IGoto(|second|)] + second
    case Look(negated, back, b) =>
      var inner := Code(b, back);
      [ILook(negated, |inner| + 1)] + inner + [IMatch]
    case Quant(a, min, max, greedy) =>
      var atom := Code(a, backward);
      ResetCode(a, min) + QuantCode(atom, min, max, greedy)
    case Capture(k, b) =>
      var inner := Code(b, backward);
      if backward then [ISaveEnd(k)] + inner + [ISaveStart(k)] else [ISaveStart(k)] + inner + [ISaveEnd(k)]
  }
}
