/**
 * The builtin function library of the evaluator (`exitFunction`): the
 * function table, the argument-count and const-only screens, and the rule
 * of each builtin (CLOG2, POWER, REVERSE, FLATTEN, BUILD, SIGNED, UNSIGNED,
 * CDIV, RESIZE), with the exact integer functions they compute.
 */
module Builtins {
  import opened Bits
  import opened Values
  import opened Checks
  import opened Operators

  datatype Builtin = Clog2Fn | PowerFn | ReverseFn | FlattenFn | BuildFn | SignedFn | UnsignedFn | CdivFn | ResizeFn

  /**
   * An entry of the `Function` table: the name it is called by, the builtin
   * it stands for, its argument count (at least `-argCount` arguments when
   * negative) and whether it only accepts constant arguments.
   */
  datatype FunctionDef = FunctionDef(name: string, kind: Builtin, argCount: int, constOnly: bool)

  /** How many leading arguments the rule of a builtin reads. */
  function Needs(k: Builtin): nat
  {
    if k == PowerFn || k == CdivFn || k == ResizeFn then 2 else 1
  }

  /** Every entry admits only argument lists long enough for its rule. */
  predicate WellFormed(table: seq<FunctionDef>)
  {
    forall i | 0 <= i < |table| :: Abs(table[i].argCount) >= Needs(table[i].kind)
  }

  /** `Function.values().firstOrNull { it.label == fid }`. */
  function Find(table: seq<FunctionDef>, fid: string): (r: Option<FunctionDef>)
    ensures r.Some? <==> exists i | 0 <= i < |table| :: table[i].name == fid
    ensures r.Some? ==> r.value in table && r.value.name == fid
    ensures r.Some? ==> exists i | 0 <= i < |table| :: table[i] == r.value && forall j | 0 <= j < i :: table[j].name != fid
  {
    if table == [] then None
    else if table[0].name == fid then Some(table[0])
    else
      var r := Find(table[1..], fid);
      if r.Some? then
        var i :| 0 <= i < |table| - 1 && table[1..][i] == r.value && forall j | 0 <= j < i :: table[1..][j].name != fid;
        assert table[i + 1] == r.value;
        r
      else r
  }

  // ---------------------------------------------------------------------
  // The integer functions

  /** ⌈log2 n⌉. */
  function Clog2(n: nat): nat
    requires n >= 1
  {
    if n == 1 then 0 else 1 + Clog2((n + 1) / 2)
  }

  /** CLOG2 gives the least `k` with `2^k >= n`. */
  lemma {:induction false} Clog2Bounds(n: nat)
    requires n >= 1
    ensures Pow2(Clog2(n)) >= n
    ensures Clog2(n) == 0 || Pow2(Clog2(n) - 1) < n
  {
    if n > 1 {
      Clog2Bounds((n + 1) / 2);
    }
  }

  function Power(b: int, e: nat): int
  {
    if e == 0 then 1 else b * Power(b, e - 1)
  }

  /** The power of two agrees with the bit-width power `Pow2`. */
  lemma {:induction false} PowerOfTwo(e: nat)
    ensures Power(2, e) == Pow2(e)
  {
    if e > 0 {
      PowerOfTwo(e - 1);
    }
  }

  /** Powers of a base add their exponents when multiplied. */
  lemma {:induction false} PowerAdd(b: int, m: nat, n: nat)
    ensures Power(b, m + n) == Power(b, m) * Power(b, n)
  {
    if m > 0 {
      PowerAdd(b, m - 1, n);
      assert Power(b, m + n) == b * Power(b, m - 1 + n);
      assert b * (Power(b, m - 1) * Power(b, n)) == (b * Power(b, m - 1)) * Power(b, n);
    }
  }

  /** ⌈a / b⌉, exactly. */
  function CeilDiv(a: int, b: int): int
    requires b != 0
  {
    if b > 0 then -((-a) / b) else -(a / (-b))
  }

  /** The exact ceiling: `q - 1 < a / b <= q`, stated without division. */
  lemma CeilDivBounds(a: int, b: int)
    requires b != 0
    ensures var q := CeilDiv(a, b);
      if b > 0 then b * (q - 1) < a <= b * q else b * q <= a < b * (q - 1)
  {
    var q := CeilDiv(a, b);
    if b > 0 {
      var f := (-a) / b;
      assert -a == b * f + (-a) % b;
      assert q == -f;
      assert b * q == -(b * f);
      assert b * (q - 1) == b * q - b;
    } else {
      var c := -b;
      var f := a / c;
      assert a == c * f + a % c;
      assert q == -f;
      assert b * q == c * f;
      assert b * (q - 1) == b * q - b;
    }
  }

  // ---------------------------------------------------------------------
  // BUILD

  /** The product of the dimensions. */
  function Product(dims: seq<int>): int
  {
    if dims == [] then 1 else Product(dims[..|dims| - 1]) * dims[|dims| - 1]
  }

  /** The product taken from the front, as a right fold computes it. */
  lemma {:induction false} ProductCons(x: int, rest: seq<int>)
    ensures Product([x] + rest) == x * Product(rest)
    decreases |rest|
  {
    var all := [x] + rest;
    if rest == [] {
      assert all[..0] == [];
    } else {
      var init, last := rest[..|rest| - 1], rest[|rest| - 1];
      assert all[..|all| - 1] == [x] + init;
      ProductCons(x, init);
      var p := Product(init);
      assert Product(all) == (x * p) * last;
      assert (x * p) * last == x * (p * last);
    }
  }

  predicate AllPositive(dims: seq<int>) { forall i | 0 <= i < |dims| :: dims[i] >= 1 }

  /** The `i`th of `d` equal slices of `bits`, each `step` long. */
  function Slice(bits: seq<Bit>, step: nat, d: int, i: nat): (r: seq<Bit>)
    requires step * d == |bits| && i < d
    ensures |r| == step
  {
    MulMonotone(step, i + 1, d);
    bits[step * i .. step * i + step]
  }

  function Reversed<T>(xs: seq<T>): (r: seq<T>)
    ensures |r| == |xs| && forall i | 0 <= i < |xs| :: r[i] == xs[|xs| - 1 - i]
  {
    seq(|xs|, i requires 0 <= i < |xs| => xs[|xs| - 1 - i])
  }

  /**
   * `buildRecursive`: the last dimension splits the bits into that many
   * equal slices, each slice is built from the remaining dimensions, and
   * the list is reversed. `None` is the failed `check` on an uneven split
   * (or the missing last dimension of an empty list).
   */
  function BuildRecursive(bits: seq<Bit>, dims: seq<int>): Option<Value>
    requires AllPositive(dims)
    decreases |dims|
  {
    if dims == [] then None
    else
      var d := dims[|dims| - 1];
      var step := |bits| / d;
      if step * d != |bits| then None
      else if |dims| == 1 then
        Some(ArrayVal(Reversed(seq(d, i requires 0 <= i < d => Simple(BitVec(Slice(bits, step, d, i), false))))))
      else
        var inner := dims[..|dims| - 1];
        var parts := seq(d, i requires 0 <= i < d => BuildRecursive(Slice(bits, step, d, i), inner));
        if exists i | 0 <= i < d :: parts[i].None? then None
        else Some(ArrayVal(Reversed(seq(d, i requires 0 <= i < d => parts[i].value))))
  }

  /** The shape BUILD produces: the last dimension outermost, slices of `w` bits innermost. */
  function Nest(dims: seq<int>, w: int): Shape
  {
    if dims == [] then Flat(w) else ArrayOf(dims[|dims| - 1], Nest(dims[..|dims| - 1], w))
  }

  lemma MulDivExact(p: int, d: int, n: int)
    requires p >= 1 && d >= 1 && n >= 0 && n % (p * d) == 0
    ensures n % d == 0 && (n / d) % p == 0 && (n / d) / p == n / (p * d)
  {
    var k := n / (p * d);
    assert n == (p * d) * k;
    assert n == d * (p * k);
    DivModUnique(n, d, p * k, 0);
    DivModUnique(n / d, p, k, 0);
  }

  lemma MulDivSplit(p: int, d: int, n: int)
    requires p >= 1 && d >= 1 && n >= 0 && n % d == 0 && (n / d) % p == 0
    ensures n % (p * d) == 0
  {
    var s := n / d;
    var k := s / p;
    assert n == d * s;
    assert s == p * k;
    assert n == (p * d) * k;
    DivModUnique(n, p * d, k, 0);
  }

  /**
   * The `check` inside `buildRecursive` never fails once the product of
   * the dimensions divides the number of bits, and then the result has the
   * nested shape; when it does not divide them, the build fails.
   */
  lemma {:induction false} BuildShape(bits: seq<Bit>, dims: seq<int>)
    requires AllPositive(dims) && dims != []
    ensures Product(dims) >= 1
    ensures BuildRecursive(bits, dims).Some? <==> |bits| % Product(dims) == 0
    ensures BuildRecursive(bits, dims).Some? ==> ShapeOf(BuildRecursive(bits, dims).value) == Nest(dims, |bits| / Product(dims))
    decreases |dims|, 1
  {
    var n := |dims|;
    var d := dims[n - 1];
    var inner := dims[..n - 1];
    var step := |bits| / d;
    assert AllPositive(inner);
    PositiveProduct(inner);
    var p := Product(inner);
    assert Product(dims) == p * d;
    assert |bits| == d * step + |bits| % d;
    if step * d != |bits| {
      if |bits| % (p * d) == 0 { MulDivExact(p, d, |bits|); }
    } else if n == 1 {
      assert p == 1;
      var elems := seq(d, i requires 0 <= i < d => Simple(BitVec(Slice(bits, step, d, i), false)));
      assert Reversed(elems)[0] == elems[d - 1];
      DivModUnique(|bits|, p * d, step, 0);
    } else {
      BuildNested(bits, dims);
    }
  }

  /** The nested case of `BuildShape`: an even split whose slices are built from the inner dimensions. */
  lemma {:induction false} BuildNested(bits: seq<Bit>, dims: seq<int>)
    requires AllPositive(dims) && |dims| > 1
    requires (|bits| / dims[|dims| - 1]) * dims[|dims| - 1] == |bits|
    requires Product(dims[..|dims| - 1]) >= 1
    ensures BuildRecursive(bits, dims).Some? <==> |bits| % Product(dims) == 0
    ensures BuildRecursive(bits, dims).Some? ==> ShapeOf(BuildRecursive(bits, dims).value) == Nest(dims, |bits| / Product(dims))
    decreases |dims|, 0
  {
    var n := |dims|;
    var d := dims[n - 1];
    var inner := dims[..n - 1];
    var step := |bits| / d;
    assert AllPositive(inner);
    var p := Product(inner);
    assert Product(dims) == p * d;
    var parts := seq(d, i requires 0 <= i < d => BuildRecursive(Slice(bits, step, d, i), inner));
    forall i | 0 <= i < d
      ensures parts[i].Some? <==> step % p == 0
      ensures parts[i].Some? ==> ShapeOf(parts[i].value) == Nest(inner, step / p)
    {
      BuildShape(Slice(bits, step, d, i), inner);
    }
    EvenSplit(|bits|, d, p, step);
    if step % p == 0 {
      var elems := seq(d, i requires 0 <= i < d => parts[i].value);
      assert Reversed(elems)[0] == elems[d - 1];
    } else {
      assert parts[0].None?;
    }
  }

  /** `n` split into `d` slices of `step` divides by `p * d` exactly when `step` divides by `p`. */
  lemma EvenSplit(n: int, d: int, p: int, step: int)
    requires d >= 1 && p >= 1 && n >= 0 && step * d == n
    ensures n % (p * d) == 0 <==> step % p == 0
    ensures step % p == 0 ==> n / (p * d) == step / p
  {
    DivModUnique(n, d, step, 0);
    if step % p == 0 {
      MulDivSplit(p, d, n);
      MulDivExact(p, d, n);
    } else if n % (p * d) == 0 {
      MulDivExact(p, d, n);
    }
  }

  lemma {:induction false} PositiveProduct(dims: seq<int>)
    requires AllPositive(dims)
    ensures Product(dims) >= 1
  {
    if dims != [] {
      var inner := dims[..|dims| - 1];
      assert AllPositive(inner);
      PositiveProduct(inner);
      MulMonotone(Product(inner), 1, dims[|dims| - 1]);
    }
  }

  /** A BUILD dimension argument: a simple number. */
  predicate DimNumber(x: Value) { x.Simple? && IsNumber(x.v) }

  /** A dimension whose value fits in an `Int`. */
  predicate DimInInt(x: Value) { DimNumber(x) && InInt(ToInt(x.v)) }

  function DimOf(x: Value): int
    requires DimNumber(x)
  {
    ToInt(x.v)
  }

  /** A dimension that is neither negative nor zero. */
  predicate DimPositive(x: Value) { DimNumber(x) && DimOf(x) > 0 }

  /** The index of the first operand whose value fails `pass`, or the length when none does. */
  function FirstFailing(ops: seq<Operand>, pass: Value -> bool): (r: nat)
    ensures r <= |ops|
    ensures forall j | 0 <= j < r :: pass(ops[j].value)
    ensures r < |ops| ==> !pass(ops[r].value)
  {
    if ops == [] then 0
    else if !pass(ops[0].value) then 0
    else
      var r := 1 + FirstFailing(ops[1..], pass);
      assert forall j | 1 <= j < r :: ops[j] == ops[1..][j - 1];
      r
  }

  /** The dimension arguments of BUILD after its three screens, or the first diagnostic. */
  datatype Dims = Dims(dims: seq<int>) | DimsError(report: Report)

  /**
   * The dimension screens of BUILD over `args[1..]`: a non-number first,
   * then a value beyond `Int`, then a negative or zero dimension, each
   * reported at the first offending argument.
   */
  function DimsRule(ops: seq<Operand>): (r: Dims)
    ensures r.Dims? ==> |r.dims| == |ops| && AllPositive(r.dims)
  {
    var i := FirstFailing(ops, DimNumber);
    if i < |ops| then DimsError(Report(ops[i].node, FunctionArgNan, Error))
    else
      var j := FirstFailing(ops, DimInInt);
      if j < |ops| then DimsError(Report(ops[j].node, ValueBiggerThanInt, Error))
      else
        var k := FirstFailing(ops, DimPositive);
        if k < |ops| then
          DimsError(Report(ops[k].node, if DimOf(ops[k].value) < 0 then FunctionArgNeg else FunctionArgZero, Error))
        else Dims(seq(|ops|, m requires 0 <= m < |ops| => DimOf(ops[m].value)))
  }

  /** BUILD after the argument-count and const screens. */
  function BuildRule(args: seq<Operand>): Outcome
    requires |args| >= 1
  {
    var value := args[0].value;
    if !value.Simple? then Fail([Report(args[0].node, BuildMultiDim, Error)])
    else
      match DimsRule(args[1..])
      case DimsError(rep) => Fail([rep])
      case Dims(dims) =>
        var factor := Int64(Product(dims));
        if factor == 0 then Throw(None)
        else if |value.v.bits| % Abs(factor) != 0 then Fail([Report(args[0].node, ArrayNotDivisible, Error)])
        else
          match BuildRecursive(value.v.bits, dims)
          case None => Throw(None)
          case Some(built) => Write(built)
  }

  // ---------------------------------------------------------------------
  // RESIZE

  /** The truncation warning of RESIZE: the value needs more bits than it is given. */
  predicate ResizeWarns(v: BitVec, n: nat)
  {
    MinBits(v) > n
  }

  /** On numbers, RESIZE warns exactly when the resize changes the value. */
  lemma ResizeWarnsExactly(v: BitVec, n: nat)
    requires IsNumber(v) && n >= 1
    ensures IsNumber(Extend(v, n))
    ensures ResizeWarns(v, n) <==> ToInt(Extend(v, n)) != ToInt(v)
  {
    ExtendIsReencoding(v, n);
    MinBitsFits(v, n);
    if Fits(ToInt(v), n, v.signed) {
      FromIntToInt(ToInt(v), n, v.signed);
    }
  }

  /** RESIZE after the argument-count and const screens. */
  function ResizeRule(args: seq<Operand>): Outcome
    requires |args| >= 2
  {
    var value, size := args[0].value, args[1].value;
    if !(size.Simple? && IsNumber(size.v)) then Nothing
    else
      var n := ToInt(size.v);
      if !InInt(n) then Fail([Report(args[1].node, ValueBiggerThanInt, Error)])
      else if n < 0 then Fail([Report(args[1].node, FunctionArgNeg, Error)])
      else if n == 0 then Fail([Report(args[1].node, FunctionArgZero, Error)])
      else if !IsFlat(ShapeOf(value)) then Fail([Report(args[0].node, FunctionNotFlat, Error)])
      else
        var warn := if value.Simple? && ResizeWarns(value.v, n) then [Report(args[0].node, TruncWarn, Warning)] else [];
        match value
        case Simple(v) => Outcome(Some(Resize(v, n)), warn, false)
        case Undefined(_, sg) => Outcome(Some(Undefined(Flat(n), sg)), warn, false)
        case _ => Nothing
  }

  // ---------------------------------------------------------------------
  // The remaining builtins

  /**
   * Reads a simple argument as an integer (`toBigInt`). A vector with an X
   * or Z bit has no integer reading; reading one is taken to throw.
   */
  function Number2(args: seq<Operand>, f: (int, int) -> Outcome): Outcome
    requires |args| >= 2
  {
    var x, y := args[0].value, args[1].value;
    if !x.Simple? then Fail([Report(args[0].node, FunctionArgNan, Error)])
    else if !y.Simple? then Fail([Report(args[1].node, FunctionArgNan, Error)])
    else if !IsNumber(x.v) || !IsNumber(y.v) then Throw(None)
    else f(ToInt(x.v), ToInt(y.v))
  }

  function Clog2Rule(args: seq<Operand>): Outcome
    requires |args| >= 1
  {
    var x := args[0].value;
    if !x.Simple? then Fail([Report(args[0].node, FunctionArgNan, Error)])
    else if !IsNumber(x.v) then Throw(None)
    else if ToInt(x.v) == 0 then Fail([Report(args[0].node, FunctionArgZero, Error)])
    else if ToInt(x.v) < 0 then Throw(None)
    else Write(Simple(ToValue(Clog2(ToInt(x.v)))))
  }

  function PowerRule(args: seq<Operand>): Outcome
    requires |args| >= 2
  {
    var exponent := args[1].node;
    Number2(args, (b, e) =>
      if !InInt(e) || e < 0 then Fail([Report(exponent, ValueBiggerThanInt, Error)])
      else Write(Simple(ToValue(Power(b, e)))))
  }

  function CdivRule(args: seq<Operand>): Outcome
    requires |args| >= 2
  {
    var divisor := args[1].node;
    Number2(args, (a, b) =>
      if b == 0 then Fail([Report(divisor, FunctionArgZero, Error)])
      else Write(Simple(ToValue(CeilDiv(a, b)))))
  }

  /** SIGNED and UNSIGNED: the same bits or shape with the flag replaced. */
  function SignRule(signed: bool, args: seq<Operand>): Outcome
    requires |args| >= 1
  {
    match args[0].value
    case Simple(v) => Write(Simple(BitVec(v.bits, signed)))
    case Undefined(s, _) => Write(Undefined(s, signed))
    case _ => Fail([Report(args[0].node, if signed then SignedMultiDim else UnsignedMultiDim, Error)])
  }

  function BuiltinRule(k: Builtin, args: seq<Operand>): Outcome
    requires |args| >= Needs(k)
  {
    match k
    case Clog2Fn => Clog2Rule(args)
    case PowerFn => PowerRule(args)
    case ReverseFn =>
      if !IsArrayLike(ShapeOf(args[0].value)) then Fail([Report(args[0].node, FunctionArgNotArray, Error)])
      else Write(Reverse(args[0].value))
    case FlattenFn =>
      if !IsDefined(ShapeOf(args[0].value)) then Fail([Report(args[0].node, UnknownWidth, Error)])
      else Write(Flatten(args[0].value))
    case BuildFn => BuildRule(args)
    case SignedFn => SignRule(true, args)
    case UnsignedFn => SignRule(false, args)
    case CdivFn => CdivRule(args)
    case ResizeFn => ResizeRule(args)
  }

  /** The argument count a table entry admits. */
  predicate ArityOk(def: FunctionDef, n: nat)
  {
    if def.argCount >= 0 then n == def.argCount else n >= -def.argCount
  }

  /**
   * `exitFunction` once the name is found and every argument has a value:
   * the count screen, the const-only screen (reported at the name), then
   * the builtin's own rule.
   */
  function CallRule(def: FunctionDef, name: NodeId, args: seq<Operand>, allConstant: bool): Outcome
    requires Abs(def.argCount) >= Needs(def.kind)
  {
    if !ArityOk(def, |args|) then
      Fail([Report(name, if def.argCount >= 0 then FunctionArgCount else FunctionMinArgCount, Error)])
    else if def.constOnly && !allConstant then Fail([Report(name, ConstFunction, Error)])
    else BuiltinRule(def.kind, args)
  }
}
