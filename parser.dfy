/**
 * The evaluator itself: a tree walker calls one `exit*` handler per
 * expression node, children before parents. Each handler reads its
 * children's entries from the `values` and `constant` tables, and may write
 * the node's entries and report diagnostics. Loops of the source (collecting
 * operands, scanning them, joining and repeating bits, reading BUILD's
 * dimensions) are the static methods at the top, each proved against the
 * function that specifies it.
 */
module Parser {
  import opened Bits
  import opened Values
  import opened Checks
  import opened Operators
  import opened Builtins

  /** `constant[n] == true`: a missing entry counts as not constant. */
  predicate IsConst(constant: map<NodeId, bool>, n: NodeId)
  {
    n in constant && constant[n]
  }

  /** `!kids.any { constant[it] != true }`. */
  predicate AllConst(constant: map<NodeId, bool>, kids: seq<NodeId>)
  {
    forall i | 0 <= i < |kids| :: IsConst(constant, kids[i])
  }

  /** The children's operands, or `None` as soon as one child has no value. */
  function Lookup(values: map<NodeId, Value>, kids: seq<NodeId>): (r: Option<seq<Operand>>)
    ensures r.Some? <==> forall i | 0 <= i < |kids| :: kids[i] in values
    ensures r.Some? ==> |r.value| == |kids| && forall i | 0 <= i < |kids| :: r.value[i] == Operand(kids[i], values[kids[i]])
  {
    if forall i | 0 <= i < |kids| :: kids[i] in values then
      Some(seq(|kids|, i requires 0 <= i < |kids| => Operand(kids[i], values[kids[i]])))
    else None
  }

  /** The `values` table after an outcome's write. */
  function Put(values: map<NodeId, Value>, node: NodeId, write: Option<Value>): map<NodeId, Value>
  {
    if write.Some? then values[node := write.value] else values
  }

  /**
   * How a handler left the tables: untouched when a child had no value
   * (`None`), otherwise as its rule says.
   */
  predicate Took(v0: map<NodeId, Value>, r0: seq<Report>, node: NodeId, o: Option<Outcome>,
                 v1: map<NodeId, Value>, r1: seq<Report>, threw: bool)
  {
    match o
    case None => v1 == v0 && r1 == r0 && !threw
    case Some(out) => v1 == Put(v0, node, out.write) && r1 == r0 + out.reports && threw == out.thrown
  }

  /** A one-child rule applied when the child has a value. */
  function Unary(values: map<NodeId, Value>, child: NodeId, rule: Operand -> Outcome): Option<Outcome>
  {
    if child in values then Some(rule(Operand(child, values[child]))) else None
  }

  /** A two-child rule applied when both children have values. */
  function Binary(values: map<NodeId, Value>, left: NodeId, right: NodeId, rule: (Operand, Operand) -> Outcome): Option<Outcome>
  {
    if left in values && right in values then Some(rule(Operand(left, values[left]), Operand(right, values[right])))
    else None
  }

  /** A rule over all children applied when every child has a value. */
  function Many(values: map<NodeId, Value>, kids: seq<NodeId>, rule: seq<Operand> -> Outcome): Option<Outcome>
  {
    match Lookup(values, kids)
    case None => None
    case Some(ops) => Some(rule(ops))
  }

  /** `exitExprDup` after its `constant` write: the count's constancy is read from the updated table. */
  function DupAt(values: map<NodeId, Value>, constant: map<NodeId, bool>, count: NodeId, dup: NodeId): Option<Outcome>
  {
    if count in values && dup in values
    then Some(DupRule(Operand(count, values[count]), Operand(dup, values[dup]), IsConst(constant, count)))
    else None
  }

  /** `exitFunction` after its `constant` write (`constant` is the updated table). */
  function FunctionAt(values: map<NodeId, Value>, constant: map<NodeId, bool>, table: seq<FunctionDef>,
                      node: NodeId, name: NodeId, fid: string, kids: seq<NodeId>): Option<Outcome>
    requires WellFormed(table)
  {
    match Find(table, fid)
    case None => Some(Fail([Report(name, UnknownFunction, Error)]))
    case Some(def) =>
      assert def in table;
      match Lookup(values, kids)
      case None => None
      case Some(args) => Some(CallRule(def, name, args, IsConst(constant, node)))
  }

  // ---------------------------------------------------------------------
  // Loops

  /** The `forEach` that reports each operand failing a screen. */
  method Failing(ops: seq<Operand>, pass: Value -> bool) returns (bad: seq<NodeId>)
    ensures bad == Screen(ops, pass)
  {
    bad := [];
    var i := 0;
    while i < |ops|
      invariant 0 <= i <= |ops|
      invariant bad + Screen(ops[i..], pass) == Screen(ops, pass)
    {
      assert ops[i..][1..] == ops[i + 1..];
      if !pass(ops[i].value) {
        bad := bad + [ops[i].node];
      }
      i := i + 1;
    }
  }

  /** `bitCount` (with `Int` wrap-around) and `definedWidth` of a flat concatenation. */
  method SizeScan(ops: seq<Operand>) returns (bitCount: int, definedWidth: bool)
    ensures bitCount == Int32(TotalSize(ops))
    ensures definedWidth == AllSized(ops)
  {
    bitCount, definedWidth := 0, true;
    var i := 0;
    while i < |ops|
      invariant 0 <= i <= |ops|
      invariant InInt(bitCount) && Int32(bitCount + TotalSize(ops[i..])) == Int32(TotalSize(ops))
      invariant definedWidth <==> forall j | 0 <= j < i :: IsArrayWidth(ShapeOf(ops[j].value))
    {
      assert ops[i..][1..] == ops[i + 1..];
      var shape := ShapeOf(ops[i].value);
      if IsArrayWidth(shape) {
        Int32Add(bitCount + shape.size, TotalSize(ops[i + 1..]));
        bitCount := Int32(bitCount + shape.size);
      } else {
        definedWidth := false;
      }
      i := i + 1;
    }
    assert ops[|ops|..] == [];
  }

  /** `operands.asReversed().forEach { bits.addAll(...) }`. */
  method JoinBits(ops: seq<Operand>) returns (bits: seq<Bit>)
    ensures bits == JoinedBits(ops)
  {
    bits := [];
    var i := |ops|;
    while i > 0
      invariant 0 <= i <= |ops|
      invariant bits == JoinedBits(ops[i..])
    {
      i := i - 1;
      assert ops[i..][1..] == ops[i + 1..];
      bits := bits + Leaves(ops[i].value);
    }
  }

  /** `operands.asReversed().forEach { valueList.addAll(...) }`. */
  method JoinElements(ops: seq<Operand>) returns (elements: seq<Value>)
    ensures elements == JoinedElements(ops)
  {
    elements := [];
    var i := |ops|;
    while i > 0
      invariant 0 <= i <= |ops|
      invariant elements == JoinedElements(ops[i..])
    {
      i := i - 1;
      assert ops[i..][1..] == ops[i + 1..];
      elements := elements + ElementsOf(ops[i].value);
    }
  }

  /** `repeat(t) { list.addAll(xs) }`. */
  method RepeatSeq<T>(xs: seq<T>, t: int) returns (r: seq<T>)
    ensures r == Repeat(xs, t)
  {
    r := [];
    var k := 0;
    while k < t
      invariant (t <= 0 && k == 0) || 0 <= k <= t
      invariant r == Repeat(xs, k)
    {
      r := r + xs;
      k := k + 1;
    }
  }

  /**
   * The characters of a string literal, one value each
   * (`repeat(valueString.length)`); the handler encodes each character with
   * `Char`, its code in eight unsigned bits.
   */
  method Characters(codes: seq<nat>, encode: nat -> Value) returns (elements: seq<Value>)
    ensures |elements| == |codes|
    ensures forall i | 0 <= i < |codes| :: elements[i] == encode(codes[i])
  {
    elements := [];
    var i := 0;
    while i < |codes|
      invariant 0 <= i <= |codes|
      invariant |elements| == i && forall j | 0 <= j < i :: elements[j] == encode(codes[j])
    {
      elements := elements + [encode(codes[i])];
      i := i + 1;
    }
  }

  lemma FirstFailingIs(ops: seq<Operand>, pass: Value -> bool, i: nat)
    requires i <= |ops|
    requires forall j | 0 <= j < i :: pass(ops[j].value)
    requires i < |ops| ==> !pass(ops[i].value)
    ensures FirstFailing(ops, pass) == i
  {
  }

  /** BUILD's three passes over its dimension arguments. */
  method ReadDims(ops: seq<Operand>) returns (r: Dims)
    ensures r == DimsRule(ops)
  {
    var i := 0;
    while i < |ops|
      invariant 0 <= i <= |ops|
      invariant forall j | 0 <= j < i :: DimNumber(ops[j].value)
    {
      if !DimNumber(ops[i].value) {
        FirstFailingIs(ops, DimNumber, i);
        return DimsError(Report(ops[i].node, FunctionArgNan, Error));
      }
      i := i + 1;
    }
    FirstFailingIs(ops, DimNumber, |ops|);
    var dims: seq<int> := [];
    i := 0;
    while i < |ops|
      invariant 0 <= i <= |ops|
      invariant |dims| == i
      invariant forall j | 0 <= j < i :: DimInInt(ops[j].value) && dims[j] == DimOf(ops[j].value)
    {
      if !InInt(DimOf(ops[i].value)) {
        FirstFailingIs(ops, DimInInt, i);
        return DimsError(Report(ops[i].node, ValueBiggerThanInt, Error));
      }
      dims := dims + [DimOf(ops[i].value)];
      i := i + 1;
    }
    FirstFailingIs(ops, DimInInt, |ops|);
    i := 0;
    while i < |ops|
      invariant 0 <= i <= |ops|
      invariant forall j | 0 <= j < i :: DimPositive(ops[j].value)
    {
      if dims[i] < 0 {
        FirstFailingIs(ops, DimPositive, i);
        return DimsError(Report(ops[i].node, FunctionArgNeg, Error));
      }
      if dims[i] == 0 {
        FirstFailingIs(ops, DimPositive, i);
        return DimsError(Report(ops[i].node, FunctionArgZero, Error));
      }
      i := i + 1;
    }
    FirstFailingIs(ops, DimPositive, |ops|);
    r := Dims(dims);
  }

  /** `dims.foldRight(1L) { dim, acc -> dim * acc }` in `Long` arithmetic. */
  method FoldFactor(dims: seq<int>) returns (factor: int)
    ensures factor == Int64(Product(dims))
  {
    factor := 1;
    var i := |dims|;
    while i > 0
      invariant 0 <= i <= |dims|
      invariant factor == Int64(Product(dims[i..]))
    {
      i := i - 1;
      assert dims[i..] == [dims[i]] + dims[i + 1..];
      ProductCons(dims[i], dims[i + 1..]);
      Int64Mul(dims[i], Product(dims[i + 1..]));
      factor := Int64(dims[i] * factor);
    }
    assert dims[0..] == dims;
  }

  // ---------------------------------------------------------------------
  // Rules whose source has loops

  method LiteralOutcome(node: NodeId, lit: Literal) returns (o: Outcome)
    ensures o == LiteralRule(node, lit)
  {
    if lit.Text? && |lit.codes| > 1 {
      var elements := Characters(lit.codes, Char);
      assert elements == seq(|lit.codes|, i requires 0 <= i < |lit.codes| => Char(lit.codes[i]));
      o := Write(ArrayVal(elements));
    } else {
      o := LiteralRule(node, lit);
    }
  }

  method ConcatOutcome(ops: seq<Operand>) returns (o: Outcome)
    ensures o == ConcatRule(ops)
  {
    if ops == [] {
      return Nothing;
    }
    var base := ops[0].value;
    if ShapeOf(base).StructOf? {
      return Fail([Report(ops[0].node, ArrayConcatStruct, Error)]);
    }
    if base.ArrayVal? {
      var elem := ShapeOf(base).elem;
      var bad := Failing(ops, x => JoinsArray(x, elem));
      if bad != [] {
        return Fail(Errors(bad, ArrayConcatDimMismatch));
      }
      if exists i | 0 <= i < |ops| :: !ops[i].value.ArrayVal? {
        return Throw(None);
      }
      var elements := JoinElements(ops);
      return Write(ArrayVal(elements));
    }
    var bad := Failing(ops, FlatValue);
    if bad != [] {
      return Fail(Errors(bad, ArrayConcatDimMismatch));
    }
    if AnyUndefined(ops) {
      var bitCount, definedWidth := SizeScan(ops);
      return Write(Undefined(if definedWidth then Flat(bitCount) else FlatUnknown, false));
    }
    var bits := JoinBits(ops);
    o := Write(Simple(BitVec(bits, false)));
  }

  method DupOutcome(count: Operand, dup: Operand, countConstant: bool) returns (o: Outcome)
    ensures o == DupRule(count, dup, countConstant)
  {
    o := DupRule(count, dup, countConstant);
    var c := count.value;
    if countConstant && IsArrayLike(ShapeOf(dup.value)) && IsFlat(ShapeOf(c)) && c.Simple? && IsNumber(c.v) {
      var t := Int32(ToInt(c.v));
      match dup.value
      case Simple(v) =>
        var bits := RepeatSeq(v.bits, t);
        o := Write(Simple(BitVec(bits, v.signed)));
      case ArrayVal(es) =>
        var elements := RepeatSeq(es, t);
        o := Write(ArrayVal(elements));
      case _ =>
    }
  }

  method BuildOutcome(args: seq<Operand>) returns (o: Outcome)
    requires |args| >= 1
    ensures o == BuildRule(args)
  {
    var value := args[0].value;
    if !value.Simple? {
      return Fail([Report(args[0].node, BuildMultiDim, Error)]);
    }
    var r := ReadDims(args[1..]);
    if r.DimsError? {
      return Fail([r.report]);
    }
    var factor := FoldFactor(r.dims);
    if factor == 0 {
      return Throw(None);
    }
    if |value.v.bits| % Abs(factor) != 0 {
      return Fail([Report(args[0].node, ArrayNotDivisible, Error)]);
    }
    var built := BuildRecursive(value.v.bits, r.dims);
    o := if built.None? then Throw(None) else Write(built.value);
  }

  method CallOutcome(def: FunctionDef, name: NodeId, args: seq<Operand>, allConstant: bool) returns (o: Outcome)
    requires Abs(def.argCount) >= Needs(def.kind)
    ensures o == CallRule(def, name, args, allConstant)
  {
    if ArityOk(def, |args|) && !(def.constOnly && !allConstant) && def.kind == BuildFn {
      o := BuildOutcome(args);
    } else {
      o := CallRule(def, name, args, allConstant);
    }
  }

  // ---------------------------------------------------------------------
  // The evaluator

  class ExprParser {
    /** The value computed for each node so far. */
    var values: map<NodeId, Value>
    /** Whether each node is a compile-time constant. */
    var constant: map<NodeId, bool>
    /** The diagnostics reported so far, in order. */
    var reports: seq<Report>
    /** The builtin function table (`Function.values()`). */
    const functions: seq<FunctionDef>
    /** The width of a product of two widths (`widthOfMult`). */
    const widthOfMult: (int, int) -> int

    constructor (functions: seq<FunctionDef>, widthOfMult: (int, int) -> int)
      requires WellFormed(functions)
      ensures values == map[] && constant == map[] && reports == []
      ensures this.functions == functions && this.widthOfMult == widthOfMult
    {
      values, constant, reports := map[], map[], [];
      this.functions, this.widthOfMult := functions, widthOfMult;
    }

    /** Looks the children up in order, giving up at the first one without a value. */
    method Gather(kids: seq<NodeId>) returns (ops: Option<seq<Operand>>)
      ensures ops == Lookup(values, kids)
    {
      var acc: seq<Operand> := [];
      var i := 0;
      while i < |kids|
        invariant 0 <= i <= |kids|
        invariant |acc| == i
        invariant forall j | 0 <= j < i :: kids[j] in values && acc[j] == Operand(kids[j], values[kids[j]])
      {
        if kids[i] !in values {
          return None;
        }
        acc := acc + [Operand(kids[i], values[kids[i]])];
        i := i + 1;
      }
      ghost var found := Lookup(values, kids);
      assert found.Some? && acc == found.value;
      return Some(acc);
    }

    /** Carries out an outcome: the write, then the reports. */
    method Apply(node: NodeId, o: Outcome) returns (threw: bool)
      modifies this
      ensures values == Put(old(values), node, o.write)
      ensures reports == old(reports) + o.reports
      ensures constant == old(constant) && threw == o.thrown
    {
      if o.write.Some? {
        values := values[node := o.write.value];
      }
      reports := reports + o.reports;
      threw := o.thrown;
    }

    /** `exitNumber`: always constant. */
    method ExitNumber(node: NodeId, lit: Literal) returns (threw: bool)
      modifies this
      ensures constant == old(constant)[node := true]
      ensures Took(old(values), old(reports), node, Some(LiteralRule(node, lit)), values, reports, threw)
    {
      constant := constant[node := true];
      var o := LiteralOutcome(node, lit);
      threw := Apply(node, o);
    }

    /** `exitExprSignal`, `exitExprStruct`, `exitExprFunction`, `exitExprNum`, `exitExprGroup`: copy the child's entries. */
    method ExitForward(node: NodeId, child: NodeId)
      modifies this
      ensures values == if child in old(values) then old(values)[node := old(values)[child]] else old(values)
      ensures constant == if child in old(constant) then old(constant)[node := old(constant)[child]] else old(constant)
      ensures reports == old(reports)
    {
      if child in values {
        values := values[node := values[child]];
      }
      if child in constant {
        constant := constant[node := constant[child]];
      }
    }

    method ExitConcat(node: NodeId, kids: seq<NodeId>) returns (threw: bool)
      modifies this
      ensures kids == [] ==> constant == old(constant) && values == old(values) && reports == old(reports) && !threw
      ensures kids != [] ==> constant == old(constant)[node := AllConst(old(constant), kids)]
      ensures kids != [] ==> Took(old(values), old(reports), node, Many(old(values), kids, ConcatRule), values, reports, threw)
    {
      threw := false;
      if kids == [] {
        return;
      }
      constant := constant[node := AllConst(constant, kids)];
      var ops := Gather(kids);
      if ops.None? {
        return;
      }
      var o := ConcatOutcome(ops.value);
      threw := Apply(node, o);
    }

    method ExitDup(node: NodeId, count: NodeId, dup: NodeId) returns (threw: bool)
      modifies this
      ensures constant == old(constant)[node := IsConst(old(constant), dup)]
      ensures Took(old(values), old(reports), node,
                   DupAt(old(values), constant, count, dup), values, reports, threw)
    {
      threw := false;
      constant := constant[node := IsConst(constant, dup)];
      if count !in values || dup !in values {
        return;
      }
      var o := DupOutcome(Operand(count, values[count]), Operand(dup, values[dup]), IsConst(constant, count));
      threw := Apply(node, o);
    }

    method ExitArray(node: NodeId, kids: seq<NodeId>) returns (threw: bool)
      modifies this
      ensures kids == [] ==> constant == old(constant) && values == old(values) && reports == old(reports) && !threw
      ensures kids != [] ==> constant == old(constant)[node := AllConst(old(constant), kids)]
      ensures kids != [] ==> Took(old(values), old(reports), node, Many(old(values), kids, ArrayRule), values, reports, threw)
    {
      threw := false;
      if kids == [] {
        return;
      }
      constant := constant[node := AllConst(constant, kids)];
      var ops := Gather(kids);
      if ops.None? {
        return;
      }
      var first := ShapeOf(ops.value[0].value);
      var bad := Failing(ops.value, x => ShapeOf(x) == first);
      var o := if bad != [] then Fail(Errors(bad, ArrayBuildingDimMismatch)) else Write(ArrayVal(ValuesOf(ops.value)));
      assert o == ArrayRule(ops.value);
      threw := Apply(node, o);
    }

    method ExitNegate(node: NodeId, child: NodeId) returns (threw: bool)
      modifies this
      ensures constant == old(constant)[node := IsConst(old(constant), child)]
      ensures Took(old(values), old(reports), node, Unary(old(values), child, a => NegateRule(node, a)), values, reports, threw)
    {
      threw := false;
      constant := constant[node := IsConst(constant, child)];
      if child !in values {
        return;
      }
      threw := Apply(node, NegateRule(node, Operand(child, values[child])));
    }

    method ExitInvert(node: NodeId, child: NodeId, op: InvertOp) returns (threw: bool)
      modifies this
      ensures constant == old(constant)[node := IsConst(old(constant), child)]
      ensures Took(old(values), old(reports), node, Unary(old(values), child, a => InvertRule(op, a)), values, reports, threw)
    {
      threw := false;
      constant := constant[node := IsConst(constant, child)];
      if child !in values {
        return;
      }
      threw := Apply(node, InvertRule(op, Operand(child, values[child])));
    }

    method ExitReduction(node: NodeId, child: NodeId, op: BitOp) returns (threw: bool)
      modifies this
      ensures constant == old(constant)[node := IsConst(old(constant), child)]
      ensures Took(old(values), old(reports), node, Unary(old(values), child, a => ReductionRule(op, a)), values, reports, threw)
    {
      threw := false;
      constant := constant[node := IsConst(constant, child)];
      if child !in values {
        return;
      }
      threw := Apply(node, ReductionRule(op, Operand(child, values[child])));
    }

    method ExitAddSub(node: NodeId, left: NodeId, right: NodeId, op: AddOp) returns (threw: bool)
      modifies this
      ensures constant == old(constant)[node := AllConst(old(constant), [left, right])]
      ensures Took(old(values), old(reports), node, Binary(old(values), left, right, (a, b) => AddSubRule(op, a, b)), values, reports, threw)
    {
      threw := false;
      constant := constant[node := AllConst(constant, [left, right])];
      if left !in values || right !in values {
        return;
      }
      threw := Apply(node, AddSubRule(op, Operand(left, values[left]), Operand(right, values[right])));
    }

    method ExitMultDiv(node: NodeId, left: NodeId, right: NodeId, op: MulOp) returns (threw: bool)
      modifies this
      ensures constant == old(constant)[node := AllConst(old(constant), [left, right])]
      ensures Took(old(values), old(reports), node,
                   Binary(old(values), left, right, (a, b) => MultDivRule(op, a, b, widthOfMult)), values, reports, threw)
    {
      threw := false;
      constant := constant[node := AllConst(constant, [left, right])];
      if left !in values || right !in values {
        return;
      }
      threw := Apply(node, MultDivRule(op, Operand(left, values[left]), Operand(right, values[right]), widthOfMult));
    }

    method ExitShift(node: NodeId, left: NodeId, right: NodeId, op: ShiftOp) returns (threw: bool)
      modifies this
      ensures constant == old(constant)[node := AllConst(old(constant), [left, right])]
      ensures Took(old(values), old(reports), node, Binary(old(values), left, right, (a, b) => ShiftRule(op, a, b)), values, reports, threw)
    {
      threw := false;
      constant := constant[node := AllConst(constant, [left, right])];
      if left !in values || right !in values {
        return;
      }
      threw := Apply(node, ShiftRule(op, Operand(left, values[left]), Operand(right, values[right])));
    }

    method ExitBitwise(node: NodeId, left: NodeId, right: NodeId, op: BitOp) returns (threw: bool)
      modifies this
      ensures constant == old(constant)[node := AllConst(old(constant), [left, right])]
      ensures Took(old(values), old(reports), node, Binary(old(values), left, right, (a, b) => BitwiseRule(op, a, b)), values, reports, threw)
    {
      threw := false;
      constant := constant[node := AllConst(constant, [left, right])];
      if left !in values || right !in values {
        return;
      }
      threw := Apply(node, BitwiseRule(op, Operand(left, values[left]), Operand(right, values[right])));
    }

    method ExitCompare(node: NodeId, left: NodeId, right: NodeId, op: CompareOp) returns (threw: bool)
      modifies this
      ensures constant == old(constant)[node := AllConst(old(constant), [left, right])]
      ensures Took(old(values), old(reports), node, Binary(old(values), left, right, (a, b) => CompareRule(op, a, b)), values, reports, threw)
    {
      threw := false;
      constant := constant[node := AllConst(constant, [left, right])];
      if left !in values || right !in values {
        return;
      }
      threw := Apply(node, CompareRule(op, Operand(left, values[left]), Operand(right, values[right])));
    }

    method ExitLogical(node: NodeId, left: NodeId, right: NodeId, op: LogicOp) returns (threw: bool)
      modifies this
      ensures constant == old(constant)[node := AllConst(old(constant), [left, right])]
      ensures Took(old(values), old(reports), node, Binary(old(values), left, right, (a, b) => LogicalRule(op, a, b)), values, reports, threw)
    {
      threw := false;
      constant := constant[node := AllConst(constant, [left, right])];
      if left !in values || right !in values {
        return;
      }
      threw := Apply(node, LogicalRule(op, Operand(left, values[left]), Operand(right, values[right])));
    }

    method ExitTernary(node: NodeId, cond: NodeId, left: NodeId, right: NodeId) returns (threw: bool)
      modifies this
      ensures constant == old(constant)[node := AllConst(old(constant), [cond, left, right])]
      ensures Took(old(values), old(reports), node,
                   Many(old(values), [cond, left, right], ops => if |ops| == 3 then TernaryRule(node, ops[0], ops[1], ops[2]) else Nothing),
                   values, reports, threw)
    {
      threw := false;
      constant := constant[node := AllConst(constant, [cond, left, right])];
      if cond !in values || left !in values || right !in values {
        return;
      }
      var c, a, b := Operand(cond, values[cond]), Operand(left, values[left]), Operand(right, values[right]);
      ghost var kids := [cond, left, right];
      assert kids[0] == cond && kids[1] == left && kids[2] == right;
      ghost var found := Lookup(values, kids);
      assert found.Some? && |found.value| == 3;
      assert found.value[0] == c && found.value[1] == a && found.value[2] == b;
      assert found.value == [c, a, b];
      threw := Apply(node, TernaryRule(node, c, a, b));
    }

    method ExitFunction(node: NodeId, name: NodeId, fid: string, kids: seq<NodeId>) returns (threw: bool)
      requires WellFormed(functions)
      modifies this
      ensures constant == old(constant)[node := AllConst(old(constant), kids)]
      ensures Took(old(values), old(reports), node, FunctionAt(old(values), constant, functions, node, name, fid, kids),
                   values, reports, threw)
    {
      threw := false;
      constant := constant[node := AllConst(constant, kids)];
      var def := Find(functions, fid);
      if def.None? {
        reports := reports + [Report(name, UnknownFunction, Error)];
        return;
      }
      assert def.value in functions;
      var args := Gather(kids);
      if args.None? {
        return;
      }
      var o := CallOutcome(def.value, name, args.value, IsConst(constant, node));
      threw := Apply(node, o);
    }
  }
}
