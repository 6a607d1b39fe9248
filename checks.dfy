/**
 * Operands, diagnostics and the four shape screens the evaluator's handlers
 * share (`checkFlat`, `checkSimpleValue`, `checkFlatOrMatchingDims`,
 * `checkUndefinedMatchingDims`). Each screen walks the operands in order,
 * reports every operand that fails, and passes when none does; here a screen
 * returns the nodes it reports, and passes exactly when that list is empty.
 */
module Checks {
  import opened Bits
  import opened Values

  /** A parse-tree node, identified abstractly. */
  type NodeId = nat

  /** A child expression together with the value the evaluator holds for it. */
  datatype Operand = Operand(node: NodeId, value: Value)

  datatype Level = Error | Warning

  /** The diagnostic kinds (`ErrorStrings`) the evaluator reports. */
  datatype Diag =
    | NumWidthNan | StringCannotBeEmpty | ValueTooBig
    | ArrayConcatStruct | ArrayConcatDimMismatch
    | ExprNotConstant | ArrayDupStruct | ArrayDupIndexMultiDim | ArrayDupIndexNan
    | ArrayBuildingDimMismatch | NegMultiDim
    | AddMultiDim | SubMultiDim | MulMultiDim | DivMultiDim | ShiftMultiDim
    | OpDimMismatch | OpNotNumber
    | TernSelectorMultiDim | OpTernDimMismatch | UnknownWidth | TernaryWidthBug
    | UnknownFunction | FunctionArgCount | FunctionMinArgCount | ConstFunction
    | FunctionArgNan | FunctionArgZero | FunctionArgNeg | ValueBiggerThanInt
    | FunctionArgNotArray | BuildMultiDim | ArrayNotDivisible
    | SignedMultiDim | UnsignedMultiDim | FunctionNotFlat | TruncWarn

  datatype Report = Report(at: NodeId, diag: Diag, level: Level)

  /** One error of kind `d` at each of `nodes`, in order. */
  function Errors(nodes: seq<NodeId>, d: Diag): (r: seq<Report>)
    ensures |r| == |nodes|
    ensures forall i | 0 <= i < |r| :: r[i] == Report(nodes[i], d, Error)
  {
    if nodes == [] then [] else [Report(nodes[0], d, Error)] + Errors(nodes[1..], d)
  }

  /** The nodes of the operands whose value fails `pass`, in operand order. */
  function Screen(ops: seq<Operand>, pass: Value -> bool): seq<NodeId>
  {
    if ops == [] then []
    else (if pass(ops[0].value) then [] else [ops[0].node]) + Screen(ops[1..], pass)
  }

  /** A screen reports exactly the failing operands, so it passes exactly when all of them pass. */
  lemma {:induction false} ScreenReports(ops: seq<Operand>, pass: Value -> bool)
    ensures forall n :: n in Screen(ops, pass) <==> exists i | 0 <= i < |ops| :: ops[i].node == n && !pass(ops[i].value)
    ensures Screen(ops, pass) == [] <==> forall i | 0 <= i < |ops| :: pass(ops[i].value)
    ensures |Screen(ops, pass)| <= |ops|
  {
    if ops != [] {
      ScreenReports(ops[1..], pass);
      forall n ensures n in Screen(ops, pass) <==> exists i | 0 <= i < |ops| :: ops[i].node == n && !pass(ops[i].value) {
        if exists i | 0 <= i < |ops| - 1 :: ops[1..][i].node == n && !pass(ops[1..][i].value) {
          var i :| 0 <= i < |ops| - 1 && ops[1..][i].node == n && !pass(ops[1..][i].value);
          assert ops[i + 1] == ops[1..][i];
        }
        if exists i | 0 <= i < |ops| :: ops[i].node == n && !pass(ops[i].value) {
          var i :| 0 <= i < |ops| && ops[i].node == n && !pass(ops[i].value);
          if i > 0 { assert ops[1..][i - 1] == ops[i]; }
        }
      }
      if Screen(ops, pass) == [] {
        forall i | 0 <= i < |ops| ensures pass(ops[i].value) {
          if i > 0 { assert ops[1..][i - 1] == ops[i]; }
        }
      }
    }
  }

  /** A flat array, possibly undefined. */
  predicate FlatValue(x: Value)
  {
    IsFlat(ShapeOf(x))
  }

  /** `checkFlat`: every operand is a flat array (its value may be undefined). */
  function CheckFlat(ops: seq<Operand>): seq<NodeId>
  {
    Screen(ops, FlatValue)
  }

  /** `checkSimpleValue`: every operand is a simple value. */
  function CheckSimple(ops: seq<Operand>): seq<NodeId>
  {
    Screen(ops, (x: Value) => x.Simple?)
  }

  /** `checkFlatOrMatchingDims`: every operand is flat alongside a flat first operand, or has the first operand's shape. */
  function CheckFlatOrMatching(ops: seq<Operand>): seq<NodeId>
  {
    if ops == [] then []
    else
      var first := ShapeOf(ops[0].value);
      Screen(ops, x => (IsFlat(ShapeOf(x)) && IsFlat(first)) || ShapeOf(x) == first)
  }

  /** `checkUndefinedMatchingDims`: when some operand has an unknown width, every operand must be flat. */
  function CheckUndefinedMatching(ops: seq<Operand>): seq<NodeId>
  {
    if exists i | 0 <= i < |ops| :: ShapeOf(ops[i].value).FlatUnknown? then CheckFlat(ops) else []
  }

  lemma CheckFlatPasses(ops: seq<Operand>)
    ensures CheckFlat(ops) == [] <==> forall i | 0 <= i < |ops| :: IsFlat(ShapeOf(ops[i].value))
    ensures forall n :: n in CheckFlat(ops) <==> exists i | 0 <= i < |ops| :: ops[i].node == n && !IsFlat(ShapeOf(ops[i].value))
  {
    ScreenReports(ops, FlatValue);
  }

  lemma CheckSimplePasses(ops: seq<Operand>)
    ensures CheckSimple(ops) == [] <==> forall i | 0 <= i < |ops| :: ops[i].value.Simple?
  {
    ScreenReports(ops, (x: Value) => x.Simple?);
  }

  /** Flat operands always pass `checkSimpleValue` once undefined ones are excluded. */
  lemma FlatDefinedIsSimple(ops: seq<Operand>)
    requires CheckFlat(ops) == []
    requires forall i | 0 <= i < |ops| :: !ops[i].value.Undefined?
    ensures CheckSimple(ops) == []
  {
    CheckFlatPasses(ops);
    CheckSimplePasses(ops);
  }

  /** Two operands pass `checkFlatOrMatchingDims` exactly when both are flat or they have the same shape. */
  lemma FlatOrMatchingPair(a: Operand, b: Operand)
    ensures CheckFlatOrMatching([a, b]) == [] <==>
      (IsFlat(ShapeOf(a.value)) && IsFlat(ShapeOf(b.value))) || ShapeOf(a.value) == ShapeOf(b.value)
  {
    var first := ShapeOf(a.value);
    ScreenReports([a, b], x => (IsFlat(ShapeOf(x)) && IsFlat(first)) || ShapeOf(x) == first);
  }

  /** `checkUndefinedMatchingDims` fails only when an unknown width meets a non-flat operand. */
  lemma UndefinedMatchingPasses(ops: seq<Operand>)
    ensures CheckUndefinedMatching(ops) != [] <==>
      (exists i | 0 <= i < |ops| :: ShapeOf(ops[i].value).FlatUnknown?) &&
      (exists i | 0 <= i < |ops| :: !IsFlat(ShapeOf(ops[i].value)))
  {
    CheckFlatPasses(ops);
  }

  /** Two operands pass `checkFlat` exactly when both are simple or undefined with a flat shape. */
  lemma FlatPair(a: Operand, b: Operand)
    ensures CheckFlat([a, b]) == [] <==> IsFlat(ShapeOf(a.value)) && IsFlat(ShapeOf(b.value))
    ensures IsFlat(ShapeOf(a.value)) ==> a.value.Simple? || a.value.Undefined?
    ensures IsFlat(ShapeOf(b.value)) ==> b.value.Simple? || b.value.Undefined?
  {
    CheckFlatPasses([a, b]);
    assert [a, b][0] == a && [a, b][1] == b;
  }

  lemma SimplePair(a: Operand, b: Operand)
    ensures CheckSimple([a, b]) == [] <==> a.value.Simple? && b.value.Simple?
  {
    CheckSimplePasses([a, b]);
    assert [a, b][0] == a && [a, b][1] == b;
  }
}
