/**
 * What each expression handler of the evaluator does once its children's
 * values have been looked up: the value it writes for the node (if any),
 * the diagnostics it reports, and whether it ends in an uncaught exception.
 * Each rule follows the branches of its handler in order; the handlers
 * themselves, which also look the children up and update the tables, are in
 * the `Parser` module.
 */
module Operators {
  import opened Bits
  import opened Values
  import opened Checks

  /**
   * The effect of one handler after its lookups. `thrown` marks an
   * exception that escapes the handler (a failed `check`, a failed cast,
   * an arithmetic exception that is not caught); a value written before the
   * exception stays written.
   */
  datatype Outcome = Outcome(write: Option<Value>, reports: seq<Report>, thrown: bool)

  function Write(x: Value): Outcome { Outcome(Some(x), [], false) }

  function Fail(rs: seq<Report>): Outcome { Outcome(None, rs, false) }

  function Throw(write: Option<Value>): Outcome { Outcome(write, [], true) }

  const Nothing := Outcome(None, [], false)

  function Max(a: int, b: int): int { if a < b then b else a }

  /** A shape the source calls an `ArrayWidth`: a flat array of known width or an array of arrays. */
  predicate IsArrayWidth(s: Shape) { s.Flat? || s.ArrayOf? }

  /** The `size` of an `ArrayWidth` (zero for other shapes). */
  function SizeOf(s: Shape): int { if IsArrayWidth(s) then s.size else 0 }

  // ---------------------------------------------------------------------
  // Literals

  /**
   * A number or string literal after lexing: `Number(width, digits)` holds
   * the bits of the optional width prefix and the bits the digits denote at
   * their own (unbounded) width; `Text` holds the character codes of a string.
   */
  datatype Literal =
    | Number(width: Option<seq<Bit>>, digits: seq<Bit>)
    | Text(codes: seq<nat>)

  /** One character of a string literal: its code in eight unsigned bits. */
  function Char(code: nat): Value { Simple(FromInt(code, 8, false)) }

  function LiteralRule(node: NodeId, lit: Literal): Outcome
  {
    match lit
    case Text(codes) =>
      if |codes| > 1 then Write(ArrayVal(seq(|codes|, i requires 0 <= i < |codes| => Char(codes[i]))))
      else if |codes| == 1 then Write(Char(codes[0]))
      else Outcome(Some(Simple(BitVec([], false))), [Report(node, StringCannotBeEmpty, Error)], false)
    case Number(None, digits) => Write(Simple(BitVec(digits, false)))
    case Number(Some(w), digits) =>
      if !AllKnown(w) then Fail([Report(node, NumWidthNan, Error)])
      else if !InInt(Unsigned(w)) then Throw(None)
      else
        var n := Unsigned(w);
        var x := Simple(Extend(BitVec(digits, false), n));
        if n < |digits| then Outcome(Some(x), [Report(node, ValueTooBig, Warning)], false) else Write(x)
  }

  // ---------------------------------------------------------------------
  // Concatenation, replication and array literals

  /** `bitCount` before wrapping: the sizes of the operands' `ArrayWidth`s added up. */
  function TotalSize(ops: seq<Operand>): int
  {
    if ops == [] then 0 else SizeOf(ShapeOf(ops[0].value)) + TotalSize(ops[1..])
  }

  /** `definedWidth`: every operand has an `ArrayWidth`. */
  predicate AllSized(ops: seq<Operand>)
  {
    forall i | 0 <= i < |ops| :: IsArrayWidth(ShapeOf(ops[i].value))
  }

  predicate AnyUndefined(ops: seq<Operand>)
  {
    exists i | 0 <= i < |ops| :: ops[i].value.Undefined?
  }

  /** The operands' bits, the last operand least significant. */
  function JoinedBits(ops: seq<Operand>): seq<Bit>
  {
    if ops == [] then [] else JoinedBits(ops[1..]) + Leaves(ops[0].value)
  }

  function ElementsOf(x: Value): seq<Value>
  {
    if x.ArrayVal? then x.elements else []
  }

  /** The operands' elements, the last operand's first. */
  function JoinedElements(ops: seq<Operand>): seq<Value>
  {
    if ops == [] then [] else JoinedElements(ops[1..]) + ElementsOf(ops[0].value)
  }

  /** An operand may join an array concatenation: an array whose elements have the base's element shape. */
  predicate JoinsArray(x: Value, elem: Shape)
  {
    ShapeOf(x).ArrayOf? && ShapeOf(x).elem == elem
  }

  /** `exitExprConcat` after its lookups (which leave at least one operand). */
  function ConcatRule(ops: seq<Operand>): Outcome
  {
    if ops == [] then Nothing
    else
      var base := ops[0].value;
      if ShapeOf(base).StructOf? then Fail([Report(ops[0].node, ArrayConcatStruct, Error)])
      else if base.ArrayVal? then
        var elem := ShapeOf(base).elem;
        var bad := Screen(ops, x => JoinsArray(x, elem));
        if bad != [] then Fail(Errors(bad, ArrayConcatDimMismatch))
        else if exists i | 0 <= i < |ops| :: !ops[i].value.ArrayVal? then Throw(None)
        else Write(ArrayVal(JoinedElements(ops)))
      else
        var bad := CheckFlat(ops);
        if bad != [] then Fail(Errors(bad, ArrayConcatDimMismatch))
        else if AnyUndefined(ops) then
          Write(Undefined(if AllSized(ops) then Flat(Int32(TotalSize(ops))) else FlatUnknown, false))
        else Write(Simple(BitVec(JoinedBits(ops), false)))
  }

  /** `xs` appended `t` times; a count that is not positive gives nothing. */
  function Repeat<T>(xs: seq<T>, t: int): (r: seq<T>)
    ensures |r| == |xs| * (if t < 0 then 0 else t)
    decreases t
  {
    if t <= 0 then [] else Repeat(xs, t - 1) + xs
  }

  /** Replication as a value: `{t{x}}` for a defined, array-shaped `x`. */
  function Replicate(x: Value, t: int): Value
  {
    match x
    case Simple(v) => Simple(BitVec(Repeat(v.bits, t), v.signed))
    case ArrayVal(es) => ArrayVal(Repeat(es, t))
    case Undefined(s, _) =>
      Undefined(match s
        case Flat(n) => Flat(Int32(n * t))
        case ArrayOf(n, e) => ArrayOf(Int32(n * t), e)
        case _ => FlatUnknown, false)
    case StructVal(_, _) => x
  }

  /** `exitExprDup` after its lookups; `countConstant` is the count's entry in `constant`. */
  function DupRule(count: Operand, dup: Operand, countConstant: bool): Outcome
  {
    var c := count.value;
    if !countConstant then Fail([Report(count.node, ExprNotConstant, Error)])
    else if !IsArrayLike(ShapeOf(dup.value)) then Fail([Report(count.node, ArrayDupStruct, Error)])
    else if !IsFlat(ShapeOf(c)) then Fail([Report(count.node, ArrayDupIndexMultiDim, Error)])
    else if c.Undefined? then Write(Undefined(FlatUnknown, false))
    else if !IsNumber(c.v) then Fail([Report(count.node, ArrayDupIndexNan, Error)])
    else Write(Replicate(dup.value, Int32(ToInt(c.v))))
  }

  function ValuesOf(ops: seq<Operand>): (r: seq<Value>)
    ensures |r| == |ops| && forall i | 0 <= i < |ops| :: r[i] == ops[i].value
  {
    seq(|ops|, i requires 0 <= i < |ops| => ops[i].value)
  }

  /** `exitExprArray` after its lookups. */
  function ArrayRule(ops: seq<Operand>): Outcome
  {
    if ops == [] then Nothing
    else
      var first := ShapeOf(ops[0].value);
      var bad := Screen(ops, x => ShapeOf(x) == first);
      if bad != [] then Fail(Errors(bad, ArrayBuildingDimMismatch)) else Write(ArrayVal(ValuesOf(ops)))
  }

  // ---------------------------------------------------------------------
  // Unary operators

  /** `exitExprNegate` after its lookup; a non-flat operand is reported at the node itself. */
  function NegateRule(node: NodeId, a: Operand): Outcome
  {
    var x := a.value;
    if !IsFlat(ShapeOf(x)) then Fail([Report(node, NegMultiDim, Error)])
    else if x.Undefined? then Write(x)
    else if !IsNumber(x.v) then Write(Simple(AllX(|x.v.bits|, x.v.signed)))
    else Write(Simple(FromInt(-ToInt(x.v), |x.v.bits|, x.v.signed)))
  }

  datatype InvertOp = LogicalNotOp | BitwiseNotOp

  /** `exitExprInvert` after its lookup: no check at all. */
  function InvertRule(op: InvertOp, a: Operand): Outcome
  {
    Write(if op == LogicalNotOp then LogicalNot(a.value) else Invert(a.value))
  }

  /** `exitExprReduction` after its lookup. */
  function ReductionRule(op: BitOp, a: Operand): Outcome
  {
    if a.value.Undefined? then Write(Undefined(Flat(1), false)) else Write(Reduce(op, a.value))
  }

  // ---------------------------------------------------------------------
  // Arithmetic

  datatype AddOp = Plus | Minus

  /** `exitExprAddSub` after its lookups. */
  function AddSubRule(op: AddOp, a: Operand, b: Operand): Outcome
  {
    var x, y := a.value, b.value;
    var bad := CheckFlat([a, b]);
    var s := Signed(x) && Signed(y);
    FlatPair(a, b);
    if bad != [] then Fail(Errors(bad, if op == Plus then AddMultiDim else SubMultiDim))
    else if x.Undefined? || y.Undefined? then
      var sx, sy := ShapeOf(x), ShapeOf(y);
      Write(Undefined(if sx.Flat? && sy.Flat? then Flat(Int32(Max(sx.size, sy.size) + 1)) else FlatUnknown, s))
    else
      var w := Max(|x.v.bits|, |y.v.bits|) + 1;
      if !IsNumber(x.v) || !IsNumber(y.v) then Write(Simple(AllX(w, s)))
      else if op == Plus then Write(Simple(FromInt(ToInt(x.v) + ToInt(y.v), w, s)))
      else Write(Simple(FromInt(ToInt(x.v) - ToInt(y.v), w, s)))
  }

  function Abs(x: int): nat { if x < 0 then -x else x }

  /** `BigInteger.divide`: the quotient rounded toward zero. */
  function TruncDiv(a: int, b: int): (q: int)
    requires b != 0
  {
    if (a < 0) == (b < 0) then Abs(a) / Abs(b) else -(Abs(a) / Abs(b))
  }

  datatype MulOp = Times | Divide

  /** `exitExprMultDiv` after its lookups; `widthOfMult` is the library's product-width function. */
  function MultDivRule(op: MulOp, a: Operand, b: Operand, widthOfMult: (int, int) -> int): Outcome
  {
    var x, y := a.value, b.value;
    var bad := CheckFlat([a, b]);
    var s := Signed(x) && Signed(y);
    FlatPair(a, b);
    if bad != [] then Fail(Errors(bad, if op == Times then MulMultiDim else DivMultiDim))
    else if x.Undefined? || y.Undefined? then
      var sx, sy := ShapeOf(x), ShapeOf(y);
      Write(Undefined(if sx.Flat? && sy.Flat? then Flat(widthOfMult(sx.size, sy.size)) else FlatUnknown, s))
    else if op == Times then
      var w := widthOfMult(|x.v.bits|, |y.v.bits|);
      if w < 0 then Throw(None)
      else if !IsNumber(x.v) || !IsNumber(y.v) then Write(Simple(AllX(w, s)))
      else Write(Simple(FromInt(ToInt(x.v) * ToInt(y.v), w, s)))
    else
      var w := |x.v.bits|;
      if !IsNumber(x.v) || !IsNumber(y.v) || ToInt(y.v) == 0 then Write(Simple(AllX(w, s)))
      else Write(Simple(FromInt(TruncDiv(ToInt(x.v), ToInt(y.v)), w, s)))
  }

  // ---------------------------------------------------------------------
  // Shifts

  /** `>>`, `>>>`, `<<`, `<<<`. */
  datatype ShiftOp = Shr | ShrArith | Shl | ShlArith

  predicate IsLeft(op: ShiftOp) { op == Shl || op == ShlArith }

  function Shifted(op: ShiftOp, v: BitVec, k: int): BitVec
  {
    match op
    case Shr => ShiftRightLogical(v, k)
    case ShrArith => ShiftRightArith(v, k)
    case Shl => ShiftLeftLogical(v, k)
    case ShlArith => ShiftLeftArith(v, k)
  }

  /**
   * `exitExprShift` after its lookups. An undefined value shifted by a
   * simple amount writes an undefined result and then fails the handler's
   * `check(value is SimpleValue)`; the rule keeps both the write and the
   * failure.
   */
  function ShiftRule(op: ShiftOp, a: Operand, b: Operand): Outcome
  {
    var x, y := a.value, b.value;
    var bad := CheckFlat([a, b]);
    var s := Signed(x) && (op == ShrArith || op == ShlArith);
    FlatPair(a, b);
    if bad != [] then Fail(Errors(bad, ShiftMultiDim))
    else if y.Undefined? then Write(Undefined(FlatUnknown, s))
    else if x.Undefined? then
      if ShapeOf(x).Flat? then
        if IsLeft(op) then
          if !IsNumber(y.v) then Throw(None)
          else Throw(Some(Undefined(Flat(Int32(ShapeOf(x).size + Int32(ToInt(y.v)))), s)))
        else Throw(Some(Undefined(ShapeOf(x), s)))
      else Throw(Some(Undefined(FlatUnknown, s)))
    else if !IsNumber(y.v) then Write(Simple(AllX(|x.v.bits|, s)))
    else Write(Simple(Shifted(op, x.v, Int32(ToInt(y.v)))))
  }

  // ---------------------------------------------------------------------
  // Bitwise, comparison and logical operators

  /** `exitExprBitwise` after its lookups. */
  function BitwiseRule(op: BitOp, a: Operand, b: Operand): Outcome
  {
    var x, y := a.value, b.value;
    var bad := CheckUndefinedMatching([a, b]);
    if bad != [] then Fail(Errors(bad, OpDimMismatch))
    else if x.Undefined? || y.Undefined? then
      var flat := CheckFlat([a, b]);
      var s := Signed(x) && Signed(y);
      if flat != [] then Fail(Errors(flat, OpDimMismatch))
      else if IsArrayWidth(ShapeOf(x)) && IsArrayWidth(ShapeOf(y)) then
        if ShapeOf(x) != ShapeOf(y) then Fail([Report(b.node, OpDimMismatch, Error)])
        else Write(Undefined(ShapeOf(x), s))
      else Write(Undefined(FlatUnknown, s))
    else
      var matching := CheckFlatOrMatching([a, b]);
      if matching != [] then Fail(Errors(matching, OpDimMismatch))
      else Write(Bitwise(op, x, y))
  }

  /** The one-bit undefined result of a comparison or logical operator on an undefined operand. */
  const UndefinedBit := Undefined(Flat(1), false)

  /** `<`, `>`, `<=`, `>=` of `exitExprCompare` after its lookups. */
  function RelationRule(rel: Relation, a: Operand, b: Operand): Outcome
  {
    var x, y := a.value, b.value;
    var bad := CheckFlat([a, b]);
    if bad != [] then Fail(Errors(bad, OpNotNumber))
    else if x.Undefined? || y.Undefined? then Write(UndefinedBit)
    else
      var simple := CheckSimple([a, b]);
      SimplePair(a, b);
      if simple != [] then Fail(Errors(simple, OpNotNumber))
      else Write(Compare(rel, x.v, y.v))
  }

  /** `==` and `!=` of `exitExprCompare` after its lookups. */
  function EqualityRule(equal: bool, a: Operand, b: Operand): Outcome
  {
    var x, y := a.value, b.value;
    var bad := CheckUndefinedMatching([a, b]);
    if bad != [] then Fail(Errors(bad, OpDimMismatch))
    else if x.Undefined? || y.Undefined? then Write(UndefinedBit)
    else
      var matching := CheckFlatOrMatching([a, b]);
      if matching != [] then Fail(Errors(matching, OpDimMismatch))
      else Write(OneBit(if equal then EqualBit(x, y) else Not4(EqualBit(x, y))))
  }

  /** The operators of `exitExprCompare`. */
  datatype CompareOp = Ordering(rel: Relation) | Equals | NotEquals

  function CompareRule(op: CompareOp, a: Operand, b: Operand): Outcome
  {
    match op
    case Ordering(rel) => RelationRule(rel, a, b)
    case Equals => EqualityRule(true, a, b)
    case NotEquals => EqualityRule(false, a, b)
  }

  /** `||` and `&&`. */
  datatype LogicOp = LogicalOr | LogicalAnd

  /** `exitExprLogical` after its lookups. */
  function LogicalRule(op: LogicOp, a: Operand, b: Operand): Outcome
  {
    var x, y := a.value, b.value;
    var bad := CheckFlat([a, b]);
    if bad != [] then Fail(Errors(bad, OpNotNumber))
    else if x.Undefined? || y.Undefined? then Write(UndefinedBit)
    else
      var simple := CheckSimple([a, b]);
      SimplePair(a, b);
      if simple != [] then Fail(Errors(simple, OpNotNumber))
      else
        var p, q := Truth(x.v.bits), Truth(y.v.bits);
        Write(OneBit(if op == LogicalOr then Or4(p, q) else And4(p, q)))
  }

  // ---------------------------------------------------------------------
  // The ternary operator

  /** The width both branches are brought to: their common shape, or the wider of two known flat widths. */
  function TernaryWidth(s1: Shape, s2: Shape): Option<Shape>
  {
    if s1 == s2 then Some(s1)
    else if IsArrayWidth(s1) && IsArrayWidth(s2) then Some(Flat(Max(s1.size, s2.size)))
    else None
  }

  /** `exitExprTernary` after its lookups. */
  function TernaryRule(node: NodeId, c: Operand, a: Operand, b: Operand): Outcome
  {
    var cond, x, y := c.value, a.value, b.value;
    var matching := CheckFlatOrMatching([a, b]);
    if !IsFlat(ShapeOf(cond)) then Fail([Report(c.node, TernSelectorMultiDim, Error)])
    else if matching != [] then Fail(Errors(matching, OpTernDimMismatch))
    else
      var width := TernaryWidth(ShapeOf(x), ShapeOf(y));
      if width.None? then Fail([Report(node, UnknownWidth, Error)])
      else if cond.Undefined? then Write(Undefined(width.value, Signed(x) && Signed(y)))
      else
        var chosen := if Truth(cond.v.bits) == B1 then x else y;
        if ShapeOf(chosen) == width.value then Write(chosen)
        else if !chosen.Simple? || !width.value.Flat? || width.value.size < 0 then
          Fail([Report(node, TernaryWidthBug, Error)])
        else Write(Resize(chosen.v, width.value.size))
  }
}
