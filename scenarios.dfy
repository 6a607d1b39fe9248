/**
 * Small worked evaluations: literal bits are written least significant
 * first, so `3d5` is `[B1, B0, B1]`.
 */
module Scenarios {
  import opened Bits
  import opened Values
  import opened Checks
  import opened Operators
  import opened Builtins
  import opened Parser
  import opened Properties

  const Five := Simple(BitVec([B1, B0, B1], false))
  const Two := Simple(BitVec([B0, B1, B0], false))
  const Seven := Simple(BitVec([B1, B1, B1, B0], false))

  /** Seven in four unsigned bits. */
  lemma SevenBits()
    ensures FromInt(7, 4, false) == Seven.v
  {
    assert [B1, B1, B1, B0][1..] == [B1, B1, B0] && [B1, B1, B0][1..] == [B1, B0] && [B1, B0][1..] == [B0];
    assert Unsigned([B1, B1, B1, B0]) == 7;
    UnsignedInjective(FromInt(7, 4, false).bits, [B1, B1, B1, B0]);
  }

  /** `3d5 + 3d2` is the four-bit unsigned 7. */
  lemma AddFiveTwo(l: NodeId, r: NodeId)
    ensures AddSubRule(Plus, Operand(l, Five), Operand(r, Two)) == Write(Seven)
  {
    assert [B1, B0, B1][1..] == [B0, B1] && [B0, B1][1..] == [B1];
    assert [B0, B1, B0][1..] == [B1, B0] && [B1, B0][1..] == [B0];
    assert ToInt(Five.v) == 5 && ToInt(Two.v) == 2;
    AddSubNumbers(Plus, Operand(l, Five), Operand(r, Two));
    SevenBits();
  }

  /** `{2{2b01}}` is `4b0101`: the two bits repeated, unsigned. */
  lemma DupTwice(c: NodeId, d: NodeId)
    ensures DupRule(Operand(c, Simple(BitVec([B0, B1], false))), Operand(d, Simple(BitVec([B1, B0], false))), true)
      == Write(Simple(BitVec([B1, B0, B1, B0], false)))
  {
    assert [B0, B1][1..] == [B1];
    assert IsNumber(BitVec([B0, B1], false));
    assert ToInt(BitVec([B0, B1], false)) == 2;
    assert Repeat([B1, B0], 1) == [B1, B0];
    assert Repeat([B1, B0], 2) == [B1, B0, B1, B0];
  }

  /** `clog2(8)` is 3 and `clog2(9)` is 4. */
  lemma Clog2Examples()
    ensures Clog2(8) == 3 && Clog2(9) == 4
  {
    assert Clog2(2) == 1;
    assert Clog2(3) == 2 && Clog2(4) == 2;
    assert Clog2(5) == 3;
  }

  /** `3d5 / 1d0` is three X bits, with no diagnostic. */
  lemma DivideByZero(l: NodeId, r: NodeId, widthOfMult: (int, int) -> int)
    ensures MultDivRule(Divide, Operand(l, Five), Operand(r, Simple(BitVec([B0], false))), widthOfMult)
      == Write(Simple(AllX(3, false)))
  {
    FlatPair(Operand(l, Five), Operand(r, Simple(BitVec([B0], false))));
    assert [B0][1..] == [];
  }

  /** `$cdiv(3d5, 1d0)` is an error at the divisor, with no value. */
  lemma CdivByZero(l: NodeId, r: NodeId)
    ensures CdivRule([Operand(l, Five), Operand(r, Simple(BitVec([B0], false)))])
      == Fail([Report(r, FunctionArgZero, Error)])
  {
    assert [B0][1..] == [];
  }

  /** `4d7`: a sized literal is its digits brought to the given width. */
  lemma SizedLiteral(node: NodeId)
    ensures LiteralRule(node, Number(Some([B0, B0, B1]), [B1, B1, B1])) == Write(Seven)
  {
    assert [B0, B0, B1][1..] == [B0, B1] && [B0, B1][1..] == [B1];
    assert Unsigned([B0, B0, B1]) == 4;
    assert Extend(BitVec([B1, B1, B1], false), 4).bits == [B1, B1, B1, B0];
  }

  /**
   * Three handler calls on a fresh evaluator: two literals, then their sum.
   * Both literals are constant, so the sum is too.
   */
  method EvaluateSum(widthOfMult: (int, int) -> int) returns (sum: Value, isConstant: bool, reports: seq<Report>)
    ensures sum == Seven && isConstant && reports == []
  {
    var p := new ExprParser([], widthOfMult);
    var t1 := p.ExitNumber(1, Number(None, [B1, B0, B1]));
    var t2 := p.ExitNumber(2, Number(Some([B1, B1]), [B0, B1]));
    assert Unsigned([B1, B1]) == 3 by { assert [B1, B1][1..] == [B1]; }
    assert Extend(BitVec([B0, B1], false), 3).bits == [B0, B1, B0];
    assert p.values == map[1 := Five, 2 := Two];
    var t3 := p.ExitAddSub(3, 1, 2, Plus);
    AddFiveTwo(1, 2);
    assert AllConst(map[1 := true, 2 := true], [1, 2]);
    sum, isConstant, reports := p.values[3], p.constant[3], p.reports;
  }
}
