/**
 * Compile-time values of the expression evaluator and their shapes
 * (`SignalWidth`), with reference definitions for the value-package
 * operations the evaluator calls (`and`, `or`, `xor`, `not`, `invert`,
 * the reductions, the comparisons, `isTrue`, `reverse`, `flatten`,
 * `resize`, `toValue`). Those operations live outside the evaluator; the
 * definitions here are the plain four-state readings of them and the
 * evaluator's properties do not depend on more than their result shapes.
 */
module Values {
  import opened Bits

  /**
   * `SignalWidth`. `Flat(n)` is an `ArrayWidth(n)` of single bits,
   * `FlatUnknown` is `UndefinedSimpleWidth`, `ArrayOf(n, e)` an
   * `ArrayWidth(n, e)` whose elements have shape `e`, `StructOf` a
   * `StructWidth`. Sizes are Kotlin `Int`s, so an `Undefined` value may
   * carry a size that wrapped around.
   */
  datatype Shape =
    | Flat(size: int)
    | FlatUnknown
    | ArrayOf(size: int, elem: Shape)
    | StructOf(id: nat)

  /** `SimpleValue`, `ArrayValue`, `UndefinedValue`, `StructValue`. */
  datatype Value =
    | Simple(v: BitVec)
    | ArrayVal(elements: seq<Value>)
    | Undefined(shape: Shape, signed: bool)
    | StructVal(id: nat, members: seq<Value>)

  /** `signalWidth`. An empty array is taken to have elements of width zero. */
  function ShapeOf(x: Value): Shape
  {
    match x
    case Simple(v) => Flat(|v.bits|)
    case ArrayVal(es) => ArrayOf(|es|, if es == [] then Flat(0) else ShapeOf(es[0]))
    case Undefined(s, _) => s
    case StructVal(id, _) => StructOf(id)
  }

  /** `signed`: arrays and structs are never signed. */
  function Signed(x: Value): bool
  {
    match x
    case Simple(v) => v.signed
    case Undefined(_, s) => s
    case _ => false
  }

  /** `isFlatArray`: a one-dimensional array of bits, possibly of unknown width. */
  predicate IsFlat(s: Shape) { s.Flat? || s.FlatUnknown? }

  /** `isArray`: anything that is not a struct. */
  predicate IsArrayLike(s: Shape) { !s.StructOf? }

  /** `isDefined`: no unknown width anywhere in the shape. */
  predicate IsDefined(s: Shape)
  {
    match s
    case Flat(_) => true
    case FlatUnknown => false
    case ArrayOf(_, e) => IsDefined(e)
    case StructOf(_) => true
  }

  /** `isNumber` as the evaluator consults it: a simple value without X or Z bits. */
  predicate IsNumberValue(x: Value) { x.Simple? && IsNumber(x.v) }

  /** Only simple and undefined values have a flat shape. */
  lemma FlatShapes(x: Value)
    ensures IsFlat(ShapeOf(x)) <==> x.Simple? || (x.Undefined? && IsFlat(x.shape))
  {
  }

  // ---------------------------------------------------------------------
  // Four-state bit logic

  function Not4(a: Bit): Bit
  {
    match a
    case B0 => B1
    case B1 => B0
    case _ => Bx
  }

  function And4(a: Bit, b: Bit): Bit
  {
    if a == B0 || b == B0 then B0 else if a == B1 && b == B1 then B1 else Bx
  }

  function Or4(a: Bit, b: Bit): Bit
  {
    if a == B1 || b == B1 then B1 else if a == B0 && b == B0 then B0 else Bx
  }

  function Xor4(a: Bit, b: Bit): Bit
  {
    if Known(a) && Known(b) then (if a != b then B1 else B0) else Bx
  }

  datatype BitOp = AndOp | OrOp | XorOp

  function Apply4(op: BitOp, a: Bit, b: Bit): Bit
  {
    match op
    case AndOp => And4(a, b)
    case OrOp => Or4(a, b)
    case XorOp => Xor4(a, b)
  }

  /** The identity element of each operator, the value of reducing no bits. */
  function Identity(op: BitOp): Bit
  {
    if op == AndOp then B1 else B0
  }

  /** `andReduce`, `orReduce`, `xorReduce` over a list of bits. */
  function Fold(op: BitOp, bits: seq<Bit>): Bit
  {
    if bits == [] then Identity(op) else Apply4(op, bits[0], Fold(op, bits[1..]))
  }

  function Ones(bits: seq<Bit>): nat
  {
    if bits == [] then 0 else BitValue(bits[0]) + Ones(bits[1..])
  }

  /** On known bits an AND reduction is 1 exactly when every bit is 1. */
  lemma {:induction false} AndFoldKnown(bits: seq<Bit>)
    requires AllKnown(bits)
    ensures Known(Fold(AndOp, bits))
    ensures Fold(AndOp, bits) == B1 <==> forall i | 0 <= i < |bits| :: bits[i] == B1
  {
    if bits != [] {
      AndFoldKnown(bits[1..]);
      if Fold(AndOp, bits) == B1 {
        forall i | 0 <= i < |bits| ensures bits[i] == B1 {
          if i > 0 { assert bits[i] == bits[1..][i - 1]; }
        }
      }
    }
  }

  /** An OR reduction is 1 exactly when some bit is 1, whatever the other bits are. */
  lemma {:induction false} OrFoldOne(bits: seq<Bit>)
    ensures Fold(OrOp, bits) == B1 <==> exists i | 0 <= i < |bits| :: bits[i] == B1
  {
    if bits != [] {
      OrFoldOne(bits[1..]);
      if exists i | 0 <= i < |bits| :: bits[i] == B1 {
        var i :| 0 <= i < |bits| && bits[i] == B1;
        if i > 0 { assert bits[1..][i - 1] == B1; }
      }
      if exists i | 0 <= i < |bits| - 1 :: bits[1..][i] == B1 {
        var i :| 0 <= i < |bits| - 1 && bits[1..][i] == B1;
        assert bits[i + 1] == B1;
      }
    }
  }

  /** On known bits an XOR reduction is the parity of the number of ones. */
  lemma {:induction false} XorFoldParity(bits: seq<Bit>)
    requires AllKnown(bits)
    ensures Fold(XorOp, bits) == (if Ones(bits) % 2 == 1 then B1 else B0)
  {
    if bits != [] {
      XorFoldParity(bits[1..]);
    }
  }

  /** `isTrue`: 1 when some bit is 1, 0 when all bits are 0, X otherwise. */
  function Truth(bits: seq<Bit>): Bit { Fold(OrOp, bits) }

  // ---------------------------------------------------------------------
  // Value-package operations

  /** Every bit of a value, element 0 first. */
  function Leaves(x: Value): seq<Bit>
    decreases x, 1
  {
    match x
    case Simple(v) => v.bits
    case ArrayVal(es) => LeavesOf(es)
    case Undefined(_, _) => []
    case StructVal(_, ms) => LeavesOf(ms)
  }

  function LeavesOf(es: seq<Value>): seq<Bit>
    decreases es, 0
  {
    if es == [] then [] else Leaves(es[0]) + LeavesOf(es[1..])
  }

  /** A one-bit unsigned value. */
  function OneBit(b: Bit): Value { Simple(BitVec([b], false)) }

  /** `not` (`!`): the negated truth of the value, one bit wide. */
  function LogicalNot(x: Value): Value
  {
    if x.Undefined? then Undefined(Flat(1), false) else OneBit(Not4(Truth(Leaves(x))))
  }

  /** `invert` (`~`): every bit inverted, shape and signedness kept. */
  function Invert(x: Value): (r: Value)
    ensures ShapeOf(r) == ShapeOf(x) && Signed(r) == Signed(x)
    decreases x
  {
    match x
    case Simple(v) => Simple(BitVec(seq(|v.bits|, i requires 0 <= i < |v.bits| => Not4(v.bits[i])), v.signed))
    case ArrayVal(es) => ArrayVal(seq(|es|, i requires 0 <= i < |es| => Invert(es[i])))
    case Undefined(_, _) => x
    case StructVal(id, ms) => StructVal(id, seq(|ms|, i requires 0 <= i < |ms| => Invert(ms[i])))
  }

  /** A reduction: the operator folded over every bit, one bit wide. */
  function Reduce(op: BitOp, x: Value): Value
  {
    OneBit(Fold(op, Leaves(x)))
  }

  /**
   * `and`, `or`, `xor`: two simple values are brought to the wider width
   * (sign-extended only when both are signed) and combined bit by bit;
   * arrays and structs of the same layout are combined element by element.
   */
  function Bitwise(op: BitOp, a: Value, b: Value): Value
    decreases a
  {
    if a.Simple? && b.Simple? then
      var s := a.v.signed && b.v.signed;
      var n := if |a.v.bits| < |b.v.bits| then |b.v.bits| else |a.v.bits|;
      var x, y := Extend(BitVec(a.v.bits, s), n), Extend(BitVec(b.v.bits, s), n);
      Simple(BitVec(seq(n, i requires 0 <= i < n => Apply4(op, x.bits[i], y.bits[i])), s))
    else if a.ArrayVal? && b.ArrayVal? && |a.elements| == |b.elements| then
      ArrayVal(seq(|a.elements|, i requires 0 <= i < |a.elements| => Bitwise(op, a.elements[i], b.elements[i])))
    else if a.StructVal? && b.StructVal? && a.id == b.id && |a.members| == |b.members| then
      StructVal(a.id, seq(|a.members|, i requires 0 <= i < |a.members| => Bitwise(op, a.members[i], b.members[i])))
    else
      Undefined(ShapeOf(a), false)
  }

  /** The integer a simple value denotes when compared with a value of signedness `signed`. */
  function Reading(v: BitVec, signed: bool): int
    requires IsNumber(v)
  {
    ToInt(BitVec(v.bits, signed))
  }

  datatype Relation = Less | Greater | LessEq | GreaterEq

  /** `isLessThan` and the other orderings: signed only when both operands are. */
  function Compare(rel: Relation, a: BitVec, b: BitVec): Value
  {
    if !IsNumber(a) || !IsNumber(b) then OneBit(Bx)
    else
      var s := a.signed && b.signed;
      var x, y := Reading(a, s), Reading(b, s);
      var holds := match rel
        case Less => x < y
        case Greater => x > y
        case LessEq => x <= y
        case GreaterEq => x >= y;
      OneBit(if holds then B1 else B0)
  }

  /** `isEqualTo` as a bit: X when an operand has an X or Z bit. */
  function EqualBit(a: Value, b: Value): Bit
  {
    if a.Simple? && b.Simple? then
      if !IsNumber(a.v) || !IsNumber(b.v) then Bx
      else
        var s := a.v.signed && b.v.signed;
        if Reading(a.v, s) == Reading(b.v, s) then B1 else B0
    else if !AllKnown(Leaves(a)) || !AllKnown(Leaves(b)) then Bx
    else if Leaves(a) == Leaves(b) then B1
    else B0
  }

  /** `reverse`: the element order (or bit order) reversed. */
  function Reverse(x: Value): Value
  {
    match x
    case Simple(v) => Simple(BitVec(seq(|v.bits|, i requires 0 <= i < |v.bits| => v.bits[|v.bits| - 1 - i]), v.signed))
    case ArrayVal(es) => ArrayVal(seq(|es|, i requires 0 <= i < |es| => es[|es| - 1 - i]))
    case _ => x
  }

  /** The number of bits of a shape, when it is known. */
  function BitCount(s: Shape): Option<int>
  {
    match s
    case Flat(n) => Some(n)
    case FlatUnknown => None
    case ArrayOf(n, e) => (match BitCount(e) case Some(k) => Some(n * k) case None => None)
    case StructOf(_) => None
  }

  /** `flatten`: all bits of the value as one unsigned simple value. */
  function Flatten(x: Value): Value
  {
    match x
    case Simple(_) => x
    case Undefined(s, sg) => Undefined(match BitCount(s) case Some(n) => Flat(n) case None => FlatUnknown, sg)
    case _ => Simple(BitVec(Leaves(x), false))
  }

  /** `resize` of a simple value: truncated or extended to `n` bits. */
  function Resize(v: BitVec, n: nat): Value
  {
    Simple(Extend(v, n))
  }

  datatype Option<T> = None | Some(value: T)

  /**
   * `BigInteger.toValue()`: a non-negative integer becomes the narrowest
   * unsigned vector (at least one bit), a negative one the narrowest signed
   * vector.
   */
  function ToValue(x: int): (r: BitVec)
    ensures IsNumber(r) && ToInt(r) == x
    ensures r.signed <==> x < 0
  {
    if x >= 0 then
      var n := if x == 0 then 1 else MinUnsigned(x);
      MinUnsignedFits(x, n);
      FromIntToInt(x, n, false);
      FromInt(x, n, false)
    else
      var n := MinSigned(x);
      MinSignedFits(x, n);
      FromIntToInt(x, n, true);
      FromInt(x, n, true)
  }
}
