/**
 * What the evaluator's rules promise across all inputs: widths, signedness,
 * bit layouts, X-propagation, exactness of arithmetic, and the error cases
 * that write nothing.
 */
module Properties {
  import opened Bits
  import opened Values
  import opened Checks
  import opened Operators
  import opened Builtins

  // ---------------------------------------------------------------------
  // Concatenation

  predicate AllSimple(ops: seq<Operand>)
  {
    forall i | 0 <= i < |ops| :: ops[i].value.Simple?
  }

  /** Bit `k` of operand `i` lands at the total size of the operands after it, plus `k`. */
  lemma {:induction false} JoinedBitAt(ops: seq<Operand>, i: nat, k: nat)
    requires AllSimple(ops) && i < |ops| && k < |ops[i].value.v.bits|
    ensures 0 <= TotalSize(ops[i + 1..]) + k < |JoinedBits(ops)|
    ensures JoinedBits(ops)[TotalSize(ops[i + 1..]) + k] == ops[i].value.v.bits[k]
    decreases i
  {
    var rest := ops[1..];
    assert AllSimple(rest) by {
      assert forall j | 0 <= j < |rest| :: rest[j] == ops[j + 1];
    }
    JoinedOffsets(rest);
    var jr, top := JoinedBits(rest), ops[0].value.v.bits;
    assert JoinedBits(ops) == jr + top;
    if i == 0 {
      assert ops[1..] == rest;
      assert (jr + top)[|jr| + k] == top[k];
    } else {
      assert rest[i - 1] == ops[i] && rest[i..] == ops[i + 1..];
      JoinedBitAt(rest, i - 1, k);
    }
  }

  /** The joined width is the total size, and each operand's offset leaves room for its bits. */
  lemma {:induction false} JoinedOffsets(ops: seq<Operand>)
    requires AllSimple(ops)
    ensures |JoinedBits(ops)| == TotalSize(ops)
    ensures forall i | 0 <= i < |ops| ::
      0 <= TotalSize(ops[i + 1..]) && TotalSize(ops[i + 1..]) + |ops[i].value.v.bits| <= TotalSize(ops)
  {
    if ops != [] {
      var rest := ops[1..];
      JoinedOffsets(rest);
      assert TotalSize(rest) >= 0 by {
        if rest != [] { assert rest[0 + 1..] == rest[1..]; }
      }
      forall i | 0 <= i < |ops|
        ensures 0 <= TotalSize(ops[i + 1..]) && TotalSize(ops[i + 1..]) + |ops[i].value.v.bits| <= TotalSize(ops)
      {
        if i > 0 {
          assert rest[i - 1] == ops[i] && rest[i..] == ops[i + 1..];
        } else {
          assert ops[1..] == rest;
        }
      }
    }
  }

  /**
   * Concatenating simple values writes their joined bits as an unsigned
   * simple value, with no diagnostic; `JoinedBitAt` says where each
   * operand's bits land.
   */
  lemma ConcatSimple(ops: seq<Operand>)
    requires ops != [] && AllSimple(ops)
    ensures ConcatRule(ops) == Write(Simple(BitVec(JoinedBits(ops), false)))
  {
    CheckFlatPasses(ops);
  }

  /** Two numbers concatenated read as the first shifted above the second. */
  lemma ConcatPairReading(a: Operand, b: Operand)
    requires a.value.Simple? && b.value.Simple? && IsNumber(a.value.v) && IsNumber(b.value.v)
    ensures var r := ConcatRule([a, b]).write;
      r.Some? && r.value.Simple? && IsNumber(r.value.v) &&
      ToInt(r.value.v) == Unsigned(b.value.v.bits) + Pow2(|b.value.v.bits|) * Unsigned(a.value.v.bits)
  {
    var ops := [a, b];
    assert ops[0] == a && ops[1] == b && ops[1..] == [b] && [b][1..] == [];
    CheckFlatPasses(ops);
    assert JoinedBits([b]) == b.value.v.bits;
    assert JoinedBits(ops) == b.value.v.bits + a.value.v.bits;
    UnsignedAppend(b.value.v.bits, a.value.v.bits);
  }

  /**
   * An undefined operand makes the concatenation undefined and unsigned:
   * its width is the sum of the widths when every width is known and the
   * sum fits an `Int`, and unknown otherwise.
   */
  lemma ConcatUndefined(ops: seq<Operand>)
    requires ops != [] && !ops[0].value.ArrayVal?
    requires forall i | 0 <= i < |ops| :: IsFlat(ShapeOf(ops[i].value))
    requires exists i | 0 <= i < |ops| :: ops[i].value.Undefined?
    ensures var r := ConcatRule(ops);
      r.reports == [] && !r.thrown && r.write.Some? && r.write.value.Undefined? && !r.write.value.signed
    ensures var s := ConcatRule(ops).write.value.shape;
      (AllSized(ops) && InInt(TotalSize(ops)) ==> s == Flat(TotalSize(ops))) &&
      (!AllSized(ops) ==> s == FlatUnknown)
  {
    CheckFlatPasses(ops);
  }

  /** A non-flat operand beside a simple or undefined first operand: one mismatch error per offender, nothing written. */
  lemma ConcatMismatch(ops: seq<Operand>)
    requires ops != [] && (ops[0].value.Simple? || ops[0].value.Undefined?) && IsFlat(ShapeOf(ops[0].value))
    requires exists i | 0 <= i < |ops| :: !IsFlat(ShapeOf(ops[i].value))
    ensures var r := ConcatRule(ops);
      r.write.None? && !r.thrown && r.reports != [] &&
      forall j | 0 <= j < |r.reports| :: r.reports[j].diag == ArrayConcatDimMismatch && r.reports[j].level == Error
    ensures forall i | 0 <= i < |ops| && !IsFlat(ShapeOf(ops[i].value)) ::
      Report(ops[i].node, ArrayConcatDimMismatch, Error) in ConcatRule(ops).reports
    ensures forall rep | rep in ConcatRule(ops).reports ::
      exists i | 0 <= i < |ops| :: ops[i].node == rep.at && !IsFlat(ShapeOf(ops[i].value))
  {
    CheckFlatPasses(ops);
    var bad := CheckFlat(ops);
    var rs := Errors(bad, ArrayConcatDimMismatch);
    forall i | 0 <= i < |ops| && !IsFlat(ShapeOf(ops[i].value)) ensures Report(ops[i].node, ArrayConcatDimMismatch, Error) in rs {
      assert ops[i].node in bad;
      var j :| 0 <= j < |bad| && bad[j] == ops[i].node;
      assert rs[j] == Report(ops[i].node, ArrayConcatDimMismatch, Error);
    }
    forall rep | rep in rs ensures rep.at in bad {
      var j :| 0 <= j < |rs| && rs[j] == rep;
      assert bad[j] == rep.at;
    }
  }

  // ---------------------------------------------------------------------
  // Replication

  /** Element `i` of a repetition is element `i mod |xs|` of the original. */
  lemma {:induction false} RepeatIndex<T>(xs: seq<T>, t: nat)
    requires |xs| > 0
    ensures forall i | 0 <= i < |Repeat(xs, t)| :: Repeat(xs, t)[i] == xs[i % |xs|]
    decreases t
  {
    if t > 0 {
      RepeatIndex(xs, t - 1);
      var w := |xs|;
      forall i | 0 <= i < |Repeat(xs, t)| ensures Repeat(xs, t)[i] == xs[i % w] {
        var head := Repeat(xs, t - 1);
        if i >= |head| {
          assert |head| == w * (t - 1);
          DivModUnique(i, w, t - 1, i - |head|);
        }
      }
    }
  }

  /**
   * `{n{v}}` of a simple `v` with a constant count `n` (read as an `Int`)
   * repeats `v`'s bits `n` times: width `w·n`, bit `i` is bit `i mod w` of
   * `v`, and the signedness of `v` is kept.
   */
  lemma DupSimple(count: Operand, dup: Operand)
    requires dup.value.Simple? && |dup.value.v.bits| > 0
    requires count.value.Simple? && IsNumber(count.value.v)
    requires 0 <= ToInt(count.value.v) < 0x8000_0000
    ensures var r := DupRule(count, dup, true);
      r.reports == [] && !r.thrown && r.write.Some? && r.write.value.Simple?
    ensures var v, n := dup.value.v, ToInt(count.value.v);
      var out := DupRule(count, dup, true).write.value.v;
      |out.bits| == |v.bits| * n && out.signed == v.signed &&
      forall i | 0 <= i < |out.bits| :: out.bits[i] == v.bits[i % |v.bits|]
  {
    RepeatIndex(dup.value.v.bits, ToInt(count.value.v));
  }

  /**
   * A count that is not constant, or a constant count with an X or Z bit, is
   * an error at the count and nothing is written.
   */
  lemma DupRejects(count: Operand, dup: Operand, countConstant: bool)
    requires !countConstant ||
      (IsArrayLike(ShapeOf(dup.value)) && count.value.Simple? && !IsNumber(count.value.v))
    ensures var r := DupRule(count, dup, countConstant);
      r.write.None? && !r.thrown &&
      r.reports == [Report(count.node, if countConstant then ArrayDupIndexNan else ExprNotConstant, Error)]
  {
  }

  // ---------------------------------------------------------------------
  // Array literals

  /**
   * An array literal writes the array of its operands' values, in order and
   * with the first element's shape, exactly when every element has that
   * shape; otherwise each element of another shape, and only those, gets a
   * mismatch error, and nothing is written.
   */
  lemma ArrayBuilds(ops: seq<Operand>)
    requires ops != []
    ensures var r := ArrayRule(ops);
      !r.thrown && (r.write.Some? <==> forall i | 0 <= i < |ops| :: ShapeOf(ops[i].value) == ShapeOf(ops[0].value))
    ensures var r := ArrayRule(ops);
      r.write.Some? ==>
        r.reports == [] && r.write.value.ArrayVal? && |r.write.value.elements| == |ops| &&
        (forall i | 0 <= i < |ops| :: r.write.value.elements[i] == ops[i].value) &&
        ShapeOf(r.write.value) == ArrayOf(|ops|, ShapeOf(ops[0].value))
    ensures var r := ArrayRule(ops);
      r.write.None? ==> (r.reports != [] &&
        forall j | 0 <= j < |r.reports| :: r.reports[j].diag == ArrayBuildingDimMismatch && r.reports[j].level == Error)
    ensures forall i | 0 <= i < |ops| && ShapeOf(ops[i].value) != ShapeOf(ops[0].value) ::
      Report(ops[i].node, ArrayBuildingDimMismatch, Error) in ArrayRule(ops).reports
    ensures forall rep | rep in ArrayRule(ops).reports ::
      exists i | 0 <= i < |ops| :: ops[i].node == rep.at && ShapeOf(ops[i].value) != ShapeOf(ops[0].value)
  {
    var first := ShapeOf(ops[0].value);
    var pass := (x: Value) => ShapeOf(x) == first;
    ScreenReports(ops, pass);
    var bad := Screen(ops, pass);
    var rs := Errors(bad, ArrayBuildingDimMismatch);
    assert ArrayRule(ops) == if bad != [] then Fail(rs) else Write(ArrayVal(ValuesOf(ops)));
    forall i | 0 <= i < |ops| && ShapeOf(ops[i].value) != first
      ensures Report(ops[i].node, ArrayBuildingDimMismatch, Error) in rs
    {
      assert ops[i].node in bad;
      var j :| 0 <= j < |bad| && bad[j] == ops[i].node;
      assert rs[j] == Report(ops[i].node, ArrayBuildingDimMismatch, Error);
    }
    forall rep | rep in rs ensures rep.at in bad {
      var j :| 0 <= j < |rs| && rs[j] == rep;
      assert bad[j] == rep.at;
    }
  }

  // ---------------------------------------------------------------------
  // Number literals

  /**
   * A sized number literal: a width prefix with an X or Z bit is an error at
   * the literal; a known width `n` that fits an `Int` gives an unsigned
   * value of `n` bits that reads as the digits modulo `2^n`, with the
   * value-too-big warning exactly when the digits need more than `n` bits.
   */
  lemma SizedLiteral(node: NodeId, width: seq<Bit>, digits: seq<Bit>)
    ensures !AllKnown(width) ==> LiteralRule(node, Number(Some(width), digits)) == Fail([Report(node, NumWidthNan, Error)])
    ensures AllKnown(width) && InInt(Unsigned(width)) ==>
      var r := LiteralRule(node, Number(Some(width), digits));
      !r.thrown && r.write.Some? && r.write.value.Simple? &&
      |r.write.value.v.bits| == Unsigned(width) && !r.write.value.v.signed &&
      (r.reports != [] <==> Unsigned(width) < |digits|) &&
      (r.reports != [] ==> r.reports == [Report(node, ValueTooBig, Warning)]) &&
      (AllKnown(digits) ==> IsNumber(r.write.value.v) && Unsigned(r.write.value.v.bits) == Unsigned(digits) % Pow2(Unsigned(width)))
  {
    if AllKnown(width) && InInt(Unsigned(width)) && AllKnown(digits) {
      ExtendIsReencoding(BitVec(digits, false), Unsigned(width));
    }
  }

  // ---------------------------------------------------------------------
  // Addition and subtraction

  /**
   * Two simple operands: the result is `max(w1, w2) + 1` bits wide and
   * signed exactly when both operands are; with an X or Z bit it is all X,
   * otherwise it is the sum or difference modulo `2^width`.
   */
  lemma AddSubSimple(op: AddOp, a: Operand, b: Operand)
    requires a.value.Simple? && b.value.Simple?
    ensures var r := AddSubRule(op, a, b);
      r.reports == [] && !r.thrown && r.write.Some? && r.write.value.Simple?
    ensures var x, y := a.value.v, b.value.v;
      var out := AddSubRule(op, a, b).write.value.v;
      var w := Max(|x.bits|, |y.bits|) + 1;
      |out.bits| == w && out.signed == (x.signed && y.signed) &&
      (!IsNumber(x) || !IsNumber(y) ==> forall i | 0 <= i < w :: out.bits[i] == Bx) &&
      (IsNumber(x) && IsNumber(y) ==>
        (IsNumber(out) && Unsigned(out.bits) == (if op == Plus then ToInt(x) + ToInt(y) else ToInt(x) - ToInt(y)) % Pow2(w)))
  {
    FlatPair(a, b);
  }

  /** Two numbers: the exact result fitted to `max + 1` bits. */
  lemma AddSubNumbers(op: AddOp, a: Operand, b: Operand)
    requires a.value.Simple? && b.value.Simple? && IsNumber(a.value.v) && IsNumber(b.value.v)
    ensures var x, y := a.value.v, b.value.v;
      AddSubRule(op, a, b) == Write(Simple(FromInt(if op == Plus then ToInt(x) + ToInt(y) else ToInt(x) - ToInt(y),
                                                   Max(|x.bits|, |y.bits|) + 1, x.signed && y.signed)))
  {
    FlatPair(a, b);
  }

  /** Two numbers that fit `m` bits add (or, signed, subtract) within `m + 1` bits. */
  lemma SumFits(x: int, y: int, m: nat, signed: bool, plus: bool)
    requires Fits(x, m, signed) && Fits(y, m, signed)
    requires plus || signed
    ensures Fits(if plus then x + y else x - y, m + 1, signed)
  {
    assert Pow2(m + 1) == 2 * Pow2(m);
    if signed && m > 0 {
      assert Pow2(m) == 2 * Pow2(m - 1);
    }
  }

  /**
   * The width `max + 1` makes the arithmetic exact: a sum of operands with
   * the same signedness, and a difference of signed operands, read back as
   * the exact integer.
   */
  lemma AddSubExact(op: AddOp, a: Operand, b: Operand)
    requires a.value.Simple? && b.value.Simple? && IsNumber(a.value.v) && IsNumber(b.value.v)
    requires a.value.v.signed == b.value.v.signed
    requires op == Plus || a.value.v.signed
    ensures var out := AddSubRule(op, a, b).write;
      out.Some? && out.value.Simple? && IsNumber(out.value.v) &&
      ToInt(out.value.v) == if op == Plus then ToInt(a.value.v) + ToInt(b.value.v) else ToInt(a.value.v) - ToInt(b.value.v)
  {
    var x, y := a.value.v, b.value.v;
    var z := if op == Plus then ToInt(x) + ToInt(y) else ToInt(x) - ToInt(y);
    var r := FromInt(z, Max(|x.bits|, |y.bits|) + 1, x.signed && y.signed);
    AddSubNumbers(op, a, b);
    assert AddSubRule(op, a, b).write == Some(Simple(r));
    ExactFit(x, y, op == Plus);
    assert IsNumber(r) && ToInt(r) == z;
  }

  /** The arithmetic behind `AddSubExact`, on the two vectors. */
  lemma ExactFit(x: BitVec, y: BitVec, plus: bool)
    requires IsNumber(x) && IsNumber(y) && x.signed == y.signed && (plus || x.signed)
    ensures var z := if plus then ToInt(x) + ToInt(y) else ToInt(x) - ToInt(y);
      ToInt(FromInt(z, Max(|x.bits|, |y.bits|) + 1, x.signed && y.signed)) == z
  {
    SumWidth(ToInt(x), ToInt(y), |x.bits|, |y.bits|, x.signed && y.signed, plus);
    FromIntToInt(if plus then ToInt(x) + ToInt(y) else ToInt(x) - ToInt(y), Max(|x.bits|, |y.bits|) + 1, x.signed && y.signed);
  }

  /** Operands fitting `n1` and `n2` bits add (or, signed, subtract) within `max + 1` bits. */
  lemma SumWidth(u: int, w: int, n1: nat, n2: nat, signed: bool, plus: bool)
    requires Fits(u, n1, signed) && Fits(w, n2, signed) && (plus || signed)
    ensures Fits(if plus then u + w else u - w, Max(n1, n2) + 1, signed)
  {
    var m := Max(n1, n2);
    FitsWider(u, n1, m, signed);
    FitsWider(w, n2, m, signed);
    SumFits(u, w, m, signed, plus);
  }

  /** A non-flat operand is reported (as an addition or subtraction error) and nothing is written. */
  lemma AddSubRejects(op: AddOp, a: Operand, b: Operand)
    requires !IsFlat(ShapeOf(a.value)) || !IsFlat(ShapeOf(b.value))
    ensures var r := AddSubRule(op, a, b);
      r.write.None? && !r.thrown && 1 <= |r.reports| <= 2 &&
      forall j | 0 <= j < |r.reports| :: r.reports[j].diag == (if op == Plus then AddMultiDim else SubMultiDim)
  {
    FlatPair(a, b);
    ScreenReports([a, b], FlatValue);
  }

  /** An undefined operand of known flat widths gives an undefined result of width `max + 1`. */
  lemma AddSubUndefined(op: AddOp, a: Operand, b: Operand)
    requires a.value.Undefined? || b.value.Undefined?
    requires ShapeOf(a.value).Flat? && ShapeOf(b.value).Flat?
    requires InInt(Max(ShapeOf(a.value).size, ShapeOf(b.value).size) + 1)
    ensures AddSubRule(op, a, b) == Write(Undefined(Flat(Max(ShapeOf(a.value).size, ShapeOf(b.value).size) + 1),
                                                    Signed(a.value) && Signed(b.value)))
  {
    FlatPair(a, b);
  }

  // ---------------------------------------------------------------------
  // Negation

  /**
   * Negating a number keeps its width and signedness and reads back as the
   * negated value modulo `2^width`; a signed number other than the most
   * negative one negates exactly.
   */
  lemma NegateNumber(node: NodeId, a: Operand)
    requires a.value.Simple? && IsNumber(a.value.v)
    ensures var r := NegateRule(node, a);
      r.reports == [] && !r.thrown && r.write.Some? && r.write.value.Simple?
    ensures var x, out := a.value.v, NegateRule(node, a).write.value.v;
      |out.bits| == |x.bits| && out.signed == x.signed && IsNumber(out) &&
      Unsigned(out.bits) == (-ToInt(x)) % Pow2(|x.bits|)
    ensures var x, out := a.value.v, NegateRule(node, a).write.value.v;
      x.signed && |x.bits| > 0 && ToInt(x) != -(Pow2(|x.bits| - 1) as int) ==> ToInt(out) == -ToInt(x)
  {
    var x := a.value.v;
    if x.signed && |x.bits| > 0 && ToInt(x) != -(Pow2(|x.bits| - 1) as int) {
      FromIntToInt(-ToInt(x), |x.bits|, true);
    }
  }

  // ---------------------------------------------------------------------
  // Multiplication and division

  /**
   * Multiplying two simple values: the result is `widthOfMult(w1, w2)` bits
   * wide and signed exactly when both operands are; with an X or Z bit it
   * is all X, otherwise it is the product modulo `2^width`, read back
   * exactly when the product fits. A negative product width cannot be
   * built and throws.
   */
  lemma MultiplySimple(a: Operand, b: Operand, widthOfMult: (int, int) -> int)
    requires a.value.Simple? && b.value.Simple?
    ensures widthOfMult(|a.value.v.bits|, |b.value.v.bits|) < 0 ==> MultDivRule(Times, a, b, widthOfMult) == Throw(None)
    ensures var x, y := a.value.v, b.value.v;
      var w := widthOfMult(|x.bits|, |y.bits|);
      var r := MultDivRule(Times, a, b, widthOfMult);
      w >= 0 ==>
        r.reports == [] && !r.thrown && r.write.Some? && r.write.value.Simple? &&
        |r.write.value.v.bits| == w && r.write.value.v.signed == (x.signed && y.signed) &&
        (!IsNumber(x) || !IsNumber(y) ==> forall i | 0 <= i < w :: r.write.value.v.bits[i] == Bx) &&
        (IsNumber(x) && IsNumber(y) ==>
          IsNumber(r.write.value.v) && Unsigned(r.write.value.v.bits) == (ToInt(x) * ToInt(y)) % Pow2(w) &&
          (Fits(ToInt(x) * ToInt(y), w, x.signed && y.signed) ==> ToInt(r.write.value.v) == ToInt(x) * ToInt(y)))
  {
    FlatPair(a, b);
    var x, y := a.value.v, b.value.v;
    var w := widthOfMult(|x.bits|, |y.bits|);
    if w >= 0 && IsNumber(x) && IsNumber(y) && Fits(ToInt(x) * ToInt(y), w, x.signed && y.signed) {
      FromIntToInt(ToInt(x) * ToInt(y), w, x.signed && y.signed);
    }
  }

  /**
   * An undefined operand of known flat widths gives an undefined result of
   * width `widthOfMult` of the two, for `*` and `/` alike.
   */
  lemma MultDivUndefined(op: MulOp, a: Operand, b: Operand, widthOfMult: (int, int) -> int)
    requires a.value.Undefined? || b.value.Undefined?
    requires ShapeOf(a.value).Flat? && ShapeOf(b.value).Flat?
    ensures MultDivRule(op, a, b, widthOfMult) ==
      Write(Undefined(Flat(widthOfMult(ShapeOf(a.value).size, ShapeOf(b.value).size)), Signed(a.value) && Signed(b.value)))
  {
    FlatPair(a, b);
  }

  /**
   * Division keeps the dividend's width; an X or Z bit in either operand, or
   * a zero divisor, gives all X without a diagnostic. Otherwise the quotient
   * is rounded toward zero and fitted to that width.
   */
  lemma DivideSimple(a: Operand, b: Operand, widthOfMult: (int, int) -> int)
    requires a.value.Simple? && b.value.Simple?
    ensures var r := MultDivRule(Divide, a, b, widthOfMult);
      r.reports == [] && !r.thrown && r.write.Some? && r.write.value.Simple?
    ensures var x, y := a.value.v, b.value.v;
      var out := MultDivRule(Divide, a, b, widthOfMult).write.value.v;
      |out.bits| == |x.bits| && out.signed == (x.signed && y.signed) &&
      ((!IsNumber(x) || !IsNumber(y) || ToInt(y) == 0) ==> forall i | 0 <= i < |x.bits| :: out.bits[i] == Bx) &&
      (IsNumber(x) && IsNumber(y) && ToInt(y) != 0 ==>
        (IsNumber(out) && Unsigned(out.bits) == TruncDiv(ToInt(x), ToInt(y)) % Pow2(|x.bits|)))
  {
    FlatPair(a, b);
  }

  /** Two numbers with a non-zero divisor: the truncated quotient fitted to the dividend's width. */
  lemma DivideNumbers(a: Operand, b: Operand, widthOfMult: (int, int) -> int)
    requires a.value.Simple? && b.value.Simple? && IsNumber(a.value.v) && IsNumber(b.value.v) && ToInt(b.value.v) != 0
    ensures MultDivRule(Divide, a, b, widthOfMult) ==
      Write(Simple(FromInt(TruncDiv(ToInt(a.value.v), ToInt(b.value.v)), |a.value.v.bits|, a.value.v.signed && b.value.v.signed)))
  {
    FlatPair(a, b);
  }

  /** Unsigned division is exact: the quotient never needs more bits than the dividend. */
  lemma DivideUnsignedExact(a: Operand, b: Operand, widthOfMult: (int, int) -> int)
    requires a.value.Simple? && b.value.Simple? && IsNumber(a.value.v) && IsNumber(b.value.v)
    requires !a.value.v.signed && !b.value.v.signed && ToInt(b.value.v) != 0
    ensures var out := MultDivRule(Divide, a, b, widthOfMult).write;
      out.Some? && out.value.Simple? && IsNumber(out.value.v) && ToInt(out.value.v) == ToInt(a.value.v) / ToInt(b.value.v)
  {
    DivideNumbers(a, b, widthOfMult);
    var x, y := ToInt(a.value.v), ToInt(b.value.v);
    assert 0 <= x && 0 < y;
    assert TruncDiv(x, y) == x / y;
    QuotientFits(x, y, |a.value.v.bits|);
    FromIntToInt(x / y, |a.value.v.bits|, false);
  }

  lemma QuotientFits(x: int, y: int, w: nat)
    requires Fits(x, w, false) && y > 0
    ensures Fits(x / y, w, false)
  {
    DivModUnique(x, y, x / y, x % y);
    MulMonotone(x / y, 1, y);
  }

  /** CDIV, unlike `/`, rejects a zero divisor: an error at the divisor and no value. */
  lemma CdivZeroRejected(args: seq<Operand>)
    requires |args| >= 2 && args[0].value.Simple? && args[1].value.Simple?
    requires IsNumber(args[0].value.v) && IsNumber(args[1].value.v) && ToInt(args[1].value.v) == 0
    ensures CdivRule(args) == Fail([Report(args[1].node, FunctionArgZero, Error)])
  {
  }

  /** CDIV of two numbers with a non-zero divisor writes the exact ceiling of their quotient. */
  lemma CdivValue(args: seq<Operand>)
    requires |args| >= 2 && args[0].value.Simple? && args[1].value.Simple?
    requires IsNumber(args[0].value.v) && IsNumber(args[1].value.v) && ToInt(args[1].value.v) != 0
    ensures var r := CdivRule(args);
      r.reports == [] && !r.thrown && r.write.Some? && r.write.value.Simple? && IsNumber(r.write.value.v)
    ensures var a, b := ToInt(args[0].value.v), ToInt(args[1].value.v);
      var q := ToInt(CdivRule(args).write.value.v);
      if b > 0 then b * (q - 1) < a <= b * q else b * q <= a < b * (q - 1)
  {
    CeilDivBounds(ToInt(args[0].value.v), ToInt(args[1].value.v));
  }

  // ---------------------------------------------------------------------
  // Shifts

  /**
   * Shifting a simple value: signed only for `>>>` and `<<<` of a signed
   * value; an undefined amount gives an undefined result of unknown width;
   * an amount with an X or Z bit gives all X at the value's width.
   */
  lemma ShiftSimple(op: ShiftOp, a: Operand, b: Operand)
    requires a.value.Simple? && IsFlat(ShapeOf(b.value))
    ensures var r := ShiftRule(op, a, b);
      r.reports == [] && !r.thrown && r.write.Some? &&
      Signed(r.write.value) == (a.value.v.signed && (op == ShrArith || op == ShlArith))
    ensures b.value.Undefined? ==> ShiftRule(op, a, b).write.value.Undefined? && ShapeOf(ShiftRule(op, a, b).write.value) == FlatUnknown
    ensures b.value.Simple? && !IsNumber(b.value.v) ==>
      var out := ShiftRule(op, a, b).write.value;
      out.Simple? && |out.v.bits| == |a.value.v.bits| && forall i | 0 <= i < |out.v.bits| :: out.v.bits[i] == Bx
  {
    FlatPair(a, b);
  }

  /** A logical left shift by a non-negative amount multiplies by `2^amount`, widening the value. */
  lemma ShiftLeftValue(a: Operand, b: Operand)
    requires a.value.Simple? && IsNumber(a.value.v) && b.value.Simple? && IsNumber(b.value.v)
    requires 0 <= ToInt(b.value.v) < 0x8000_0000
    ensures var out := ShiftRule(Shl, a, b).write;
      out.Some? && out.value.Simple? && IsNumber(out.value.v) &&
      |out.value.v.bits| == |a.value.v.bits| + ToInt(b.value.v) &&
      Unsigned(out.value.v.bits) == Pow2(ToInt(b.value.v)) * Unsigned(a.value.v.bits)
  {
    FlatPair(a, b);
    ShiftLeftMultiplies(a.value.v, ToInt(b.value.v));
  }

  /**
   * A right shift of a number by an amount that reads as a non-negative
   * `Int` keeps the width. `>>` gives an unsigned value: the binary reading
   * divided by `2^amount`. `>>>` keeps the signedness and divides the
   * reading by `2^amount`, rounding down, so a negative value stays
   * negative.
   */
  lemma ShiftRightValue(a: Operand, b: Operand)
    requires a.value.Simple? && IsNumber(a.value.v) && b.value.Simple? && IsNumber(b.value.v)
    requires 0 <= ToInt(b.value.v) < 0x8000_0000
    ensures var out := ShiftRule(Shr, a, b).write;
      out.Some? && out.value.Simple? && IsNumber(out.value.v) &&
      |out.value.v.bits| == |a.value.v.bits| && !out.value.v.signed &&
      ToInt(out.value.v) == Unsigned(a.value.v.bits) / Pow2(ToInt(b.value.v))
    ensures var out := ShiftRule(ShrArith, a, b).write;
      out.Some? && out.value.Simple? && IsNumber(out.value.v) &&
      |out.value.v.bits| == |a.value.v.bits| && out.value.v.signed == a.value.v.signed &&
      ToInt(out.value.v) == ToInt(a.value.v) / Pow2(ToInt(b.value.v))
  {
    FlatPair(a, b);
    ShiftRightDivides(a.value.v, ToInt(b.value.v));
    ShiftRightArithDivides(a.value.v, ToInt(b.value.v));
  }

  /**
   * The shift handler's defect: an undefined value shifted by a simple
   * amount writes an undefined result and then ends in the failed
   * simple-value check (an exception), with no diagnostic.
   */
  lemma ShiftUndefinedValueFails(op: ShiftOp, a: Operand, b: Operand)
    requires a.value.Undefined? && IsFlat(a.value.shape) && b.value.Simple?
    requires !IsLeft(op) || IsNumber(b.value.v)
    ensures var r := ShiftRule(op, a, b);
      r.thrown && r.reports == [] && r.write.Some? && r.write.value.Undefined?
  {
    FlatPair(a, b);
  }

  // ---------------------------------------------------------------------
  // One-bit results of undefined operands

  /**
   * Reduction, ordering, equality and logical operators all give the
   * one-bit unsigned undefined value when an operand is undefined (and the
   * operands pass the operator's shape screen).
   */
  lemma UndefinedGivesOneBit(a: Operand, b: Operand, op: BitOp, rel: Relation, lop: LogicOp)
    requires a.value.Undefined?
    requires IsFlat(ShapeOf(a.value)) && IsFlat(ShapeOf(b.value))
    ensures ShapeOf(UndefinedBit) == Flat(1) && !Signed(UndefinedBit)
    ensures ReductionRule(op, a) == Write(UndefinedBit)
    ensures RelationRule(rel, a, b) == Write(UndefinedBit) && RelationRule(rel, b, a) == Write(UndefinedBit)
    ensures EqualityRule(true, a, b) == Write(UndefinedBit) && EqualityRule(false, b, a) == Write(UndefinedBit)
    ensures LogicalRule(lop, a, b) == Write(UndefinedBit) && LogicalRule(lop, b, a) == Write(UndefinedBit)
  {
    FlatPair(a, b);
    FlatPair(b, a);
    UndefinedMatchingPasses([a, b]);
    UndefinedMatchingPasses([b, a]);
    assert [a, b][0] == a && [a, b][1] == b && [b, a][0] == b && [b, a][1] == a;
  }

  /** On numbers, `<` and `>=` are complementary, as are `>` and `<=`, and `==` and `!=`. */
  lemma OrderingComplements(a: Operand, b: Operand)
    requires a.value.Simple? && b.value.Simple? && IsNumber(a.value.v) && IsNumber(b.value.v)
    ensures RelationRule(Less, a, b).write.Some? && RelationRule(GreaterEq, a, b).write.Some?
    ensures RelationRule(Greater, a, b).write.Some? && RelationRule(LessEq, a, b).write.Some?
    ensures EqualityRule(true, a, b).write.Some? && EqualityRule(false, a, b).write.Some?
    ensures RelationRule(Less, a, b).write.value == OneBit(Not4(RelationRule(GreaterEq, a, b).write.value.v.bits[0]))
    ensures RelationRule(Greater, a, b).write.value == OneBit(Not4(RelationRule(LessEq, a, b).write.value.v.bits[0]))
    ensures EqualityRule(false, a, b).write.value == OneBit(Not4(EqualityRule(true, a, b).write.value.v.bits[0]))
  {
    FlatPair(a, b);
    SimplePair(a, b);
    FlatOrMatchingPair(a, b);
    UndefinedMatchingPasses([a, b]);
    assert [a, b][0] == a && [a, b][1] == b;
  }

  // ---------------------------------------------------------------------
  // The ternary operator

  /**
   * An undefined selector between branches that pass the shape screen: the
   * common width is the branches' shared shape, else the wider of two known
   * widths, else there is none. With a common width the result is undefined
   * at that width, signed only when both branches are; without one it is
   * the unknown-width error.
   */
  lemma TernaryUndefinedSelector(node: NodeId, c: Operand, a: Operand, b: Operand)
    requires c.value.Undefined? && IsFlat(c.value.shape)
    requires (IsFlat(ShapeOf(a.value)) && IsFlat(ShapeOf(b.value))) || ShapeOf(a.value) == ShapeOf(b.value)
    ensures var sa, sb := ShapeOf(a.value), ShapeOf(b.value);
      var w := TernaryWidth(sa, sb);
      (w.Some? <==> sa == sb || (sa.Flat? && sb.Flat?)) &&
      (sa == sb ==> w == Some(sa)) &&
      (sa != sb && sa.Flat? && sb.Flat? ==> w == Some(Flat(Max(sa.size, sb.size))))
    ensures var w := TernaryWidth(ShapeOf(a.value), ShapeOf(b.value));
      w.Some? ==> TernaryRule(node, c, a, b) == Write(Undefined(w.value, Signed(a.value) && Signed(b.value)))
    ensures TernaryWidth(ShapeOf(a.value), ShapeOf(b.value)).None? ==>
      TernaryRule(node, c, a, b) == Fail([Report(node, UnknownWidth, Error)])
  {
    FlatOrMatchingPair(a, b);
  }

  /**
   * A simple selector chooses the first branch when true and the second
   * otherwise. Branches of the same shape are written unchanged; a simple
   * branch beside another simple branch is brought to the wider width,
   * keeping its value when it is a number.
   */
  lemma TernarySelects(node: NodeId, c: Operand, a: Operand, b: Operand)
    requires c.value.Simple?
    requires (a.value.Simple? && b.value.Simple?) || ShapeOf(a.value) == ShapeOf(b.value)
    ensures var r := TernaryRule(node, c, a, b);
      r.reports == [] && !r.thrown && r.write.Some?
    ensures ShapeOf(a.value) == ShapeOf(b.value) ==>
      TernaryRule(node, c, a, b).write.value == if Truth(c.value.v.bits) == B1 then a.value else b.value
    ensures a.value.Simple? && b.value.Simple? ==>
      var chosen := if Truth(c.value.v.bits) == B1 then a.value.v else b.value.v;
      var n := Max(|a.value.v.bits|, |b.value.v.bits|);
      var out := TernaryRule(node, c, a, b).write.value;
      out == Simple(Extend(chosen, n)) && (IsNumber(chosen) ==> IsNumber(out.v) && ToInt(out.v) == ToInt(chosen))
  {
    FlatOrMatchingPair(a, b);
    if a.value.Simple? && b.value.Simple? {
      var chosen := if Truth(c.value.v.bits) == B1 then a.value.v else b.value.v;
      var n := Max(|a.value.v.bits|, |b.value.v.bits|);
      if |chosen.bits| == n {
        assert Extend(chosen, n) == chosen by {
          assert Extend(chosen, n).bits == chosen.bits;
        }
      }
      if IsNumber(chosen) {
        ExtendIsReencoding(chosen, n);
        FitsWider(ToInt(chosen), |chosen.bits|, n, chosen.signed);
        FromIntToInt(ToInt(chosen), n, chosen.signed);
      }
    }
  }

  /**
   * The handler's width-bug error is reachable: a true selector choosing an
   * undefined two-bit branch beside a four-bit simple one.
   */
  lemma TernaryWidthBugReachable(node: NodeId, c: NodeId, a: NodeId, b: NodeId)
    ensures TernaryRule(node, Operand(c, OneBit(B1)), Operand(a, Undefined(Flat(2), false)),
                        Operand(b, Simple(BitVec([B0, B0, B0, B0], false))))
      == Fail([Report(node, TernaryWidthBug, Error)])
  {
    var x, y := Operand(a, Undefined(Flat(2), false)), Operand(b, Simple(BitVec([B0, B0, B0, B0], false)));
    FlatOrMatchingPair(x, y);
    assert Truth([B1]) == B1;
  }

  // ---------------------------------------------------------------------
  // Function calls

  /**
   * A call is rejected, with one error at the function name and no value,
   * when the argument count is wrong (exactly `argCount` when it is
   * non-negative, at least `|argCount|` otherwise) or when a const-only
   * function gets a non-constant argument; otherwise the builtin's rule
   * decides.
   */
  lemma CallScreens(def: FunctionDef, name: NodeId, args: seq<Operand>, allConstant: bool)
    requires Abs(def.argCount) >= Needs(def.kind)
    ensures !ArityOk(def, |args|) ==>
      CallRule(def, name, args, allConstant) ==
        Fail([Report(name, if def.argCount >= 0 then FunctionArgCount else FunctionMinArgCount, Error)])
    ensures ArityOk(def, |args|) <==> (if def.argCount >= 0 then |args| == def.argCount else |args| >= -def.argCount)
    ensures ArityOk(def, |args|) && def.constOnly && !allConstant ==>
      CallRule(def, name, args, allConstant) == Fail([Report(name, ConstFunction, Error)])
    ensures ArityOk(def, |args|) && (allConstant || !def.constOnly) ==>
      |args| >= Needs(def.kind) && CallRule(def, name, args, allConstant) == BuiltinRule(def.kind, args)
  {
  }

  /** CLOG2 of a positive number writes the least `k` with `2^k >= n`. */
  lemma Clog2Value(args: seq<Operand>)
    requires |args| >= 1 && args[0].value.Simple? && IsNumber(args[0].value.v) && ToInt(args[0].value.v) >= 1
    ensures var r := Clog2Rule(args);
      r.reports == [] && !r.thrown && r.write.Some? && r.write.value.Simple? && IsNumber(r.write.value.v)
    ensures var n, k := ToInt(args[0].value.v), ToInt(Clog2Rule(args).write.value.v);
      k >= 0 && Pow2(k) >= n && (k == 0 || Pow2(k - 1) < n)
  {
    Clog2Bounds(ToInt(args[0].value.v));
  }

  /**
   * POWER of two numbers: an exponent that is non-negative and fits an
   * `Int` writes `b^e` as the narrowest value that reads as it; any other
   * exponent is the value-bigger-than-int error at the exponent, and
   * nothing is written.
   */
  lemma PowerValue(args: seq<Operand>)
    requires |args| >= 2 && args[0].value.Simple? && args[1].value.Simple?
    requires IsNumber(args[0].value.v) && IsNumber(args[1].value.v)
    ensures var b, e := ToInt(args[0].value.v), ToInt(args[1].value.v);
      0 <= e && InInt(e) ==>
        var r := PowerRule(args);
        r.reports == [] && !r.thrown && r.write.Some? && r.write.value.Simple? &&
        IsNumber(r.write.value.v) && ToInt(r.write.value.v) == Power(b, e)
    ensures var e := ToInt(args[1].value.v);
      !(0 <= e && InInt(e)) ==> PowerRule(args) == Fail([Report(args[1].node, ValueBiggerThanInt, Error)])
  {
  }

  /**
   * BUILD of a simple value with positive dimensions whose product fits a
   * `Long`: a value exactly when the width divides evenly, nested with the
   * last dimension outermost; otherwise the not-divisible error.
   */
  lemma BuildWrites(args: seq<Operand>, dims: seq<int>)
    requires |args| >= 2 && args[0].value.Simple?
    requires DimsRule(args[1..]) == Dims(dims)
    requires Product(dims) < 0x8000_0000_0000_0000
    ensures var r := BuildRule(args);
      !r.thrown && (r.write.Some? <==> |args[0].value.v.bits| % Product(dims) == 0)
    ensures BuildRule(args).write.Some? ==>
      BuildRule(args).reports == [] &&
      ShapeOf(BuildRule(args).write.value) == Nest(dims, |args[0].value.v.bits| / Product(dims))
    ensures BuildRule(args).write.None? ==> BuildRule(args).reports == [Report(args[0].node, ArrayNotDivisible, Error)]
  {
    PositiveProduct(dims);
    BuildShape(args[0].value.v.bits, dims);
  }

  /** RESIZE of a number to a positive width warns exactly when the resized value differs. */
  lemma ResizeValue(args: seq<Operand>)
    requires |args| >= 2 && args[0].value.Simple? && IsNumber(args[0].value.v)
    requires args[1].value.Simple? && IsNumber(args[1].value.v)
    requires 1 <= ToInt(args[1].value.v) < 0x8000_0000
    ensures var r := ResizeRule(args);
      !r.thrown && r.write.Some? && r.write.value.Simple? &&
      |r.write.value.v.bits| == ToInt(args[1].value.v) && IsNumber(r.write.value.v)
    ensures var r := ResizeRule(args);
      (r.reports != [] <==> ToInt(r.write.value.v) != ToInt(args[0].value.v)) &&
      (r.reports != [] ==> r.reports == [Report(args[0].node, TruncWarn, Warning)])
  {
    ResizeWarnsExactly(args[0].value.v, ToInt(args[1].value.v));
  }

  /** REVERSE twice gives back the value. */
  lemma ReverseInvolutive(x: Value)
    ensures Reverse(Reverse(x)) == x
  {
    match x
    case Simple(v) =>
      assert Reverse(Reverse(x)).v.bits == v.bits;
    case ArrayVal(es) =>
      assert Reverse(Reverse(x)).elements == es;
    case _ =>
  }

  /** FLATTEN keeps every bit, in order, as one unsigned simple value. */
  lemma FlattenKeepsBits(x: Value)
    requires x.ArrayVal? || x.StructVal?
    ensures Flatten(x).Simple? && !Flatten(x).v.signed && Flatten(x).v.bits == Leaves(x)
  {
  }

  /** SIGNED and UNSIGNED change only the flag: the bits and the shape stay. */
  lemma SignKeepsBits(signed: bool, args: seq<Operand>)
    requires |args| >= 1 && (args[0].value.Simple? || args[0].value.Undefined?)
    ensures var r := SignRule(signed, args);
      r.reports == [] && !r.thrown && r.write.Some? &&
      ShapeOf(r.write.value) == ShapeOf(args[0].value) && Signed(r.write.value) == signed && Leaves(r.write.value) == Leaves(args[0].value)
  {
  }

  // ---------------------------------------------------------------------
  // Bit logic

  /** `~` twice gives back a simple value without X or Z bits. */
  lemma InvertInvolutive(x: Value)
    requires x.Simple? && IsNumber(x.v)
    ensures Invert(Invert(x)) == x
  {
    assert Invert(Invert(x)).v.bits == x.v.bits;
  }

  /**
   * `&`, `|` and `^` of two values that are not undefined: when both are
   * flat or their shapes agree, the handler writes the reference operation
   * of the two values; otherwise the second operand's shape differs from
   * the first one's, it alone is reported, and nothing is written.
   */
  lemma BitwiseDefined(op: BitOp, a: Operand, b: Operand)
    requires !a.value.Undefined? && !b.value.Undefined?
    ensures var sa, sb := ShapeOf(a.value), ShapeOf(b.value);
      (IsFlat(sa) && IsFlat(sb)) || sa == sb ==> BitwiseRule(op, a, b) == Write(Bitwise(op, a.value, b.value))
    ensures var sa, sb := ShapeOf(a.value), ShapeOf(b.value);
      !((IsFlat(sa) && IsFlat(sb)) || sa == sb) ==> BitwiseRule(op, a, b) == Fail([Report(b.node, OpDimMismatch, Error)])
  {
    assert CheckUndefinedMatching([a, b]) == [] by {
      UndefinedMatchingPasses([a, b]);
      assert [a, b][0] == a && [a, b][1] == b;
    }
    FlatOrMatchingPair(a, b);
    if !((IsFlat(ShapeOf(a.value)) && IsFlat(ShapeOf(b.value))) || ShapeOf(a.value) == ShapeOf(b.value)) {
      var first := ShapeOf(a.value);
      var pass := x => (IsFlat(ShapeOf(x)) && IsFlat(first)) || ShapeOf(x) == first;
      assert CheckFlatOrMatching([a, b]) == [b.node] by {
        assert [a, b][1..] == [b] && [b][1..] == [];
        assert pass(a.value) && !pass(b.value);
        assert CheckFlatOrMatching([a, b]) == Screen([b], pass);
      }
    }
  }

  /**
   * `&`, `|` and `^` with an undefined operand: when both operands are flat
   * and two known widths agree, the result is undefined with that width
   * (unknown when either width is), signed only when both operands are; two
   * known widths that differ are an error at the second operand; a
   * non-flat operand is reported, and in both error cases nothing is
   * written.
   */
  lemma BitwiseUndefined(op: BitOp, a: Operand, b: Operand)
    requires a.value.Undefined? || b.value.Undefined?
    ensures var sa, sb := ShapeOf(a.value), ShapeOf(b.value);
      var r := BitwiseRule(op, a, b);
      !r.thrown && (r.write.Some? <==> IsFlat(sa) && IsFlat(sb) && (sa.Flat? && sb.Flat? ==> sa == sb))
    ensures var sa, sb := ShapeOf(a.value), ShapeOf(b.value);
      var r := BitwiseRule(op, a, b);
      r.write.Some? ==> r == Write(Undefined(if sa.Flat? && sb.Flat? then sa else FlatUnknown, Signed(a.value) && Signed(b.value)))
    ensures var sa, sb := ShapeOf(a.value), ShapeOf(b.value);
      sa.Flat? && sb.Flat? && sa != sb ==> BitwiseRule(op, a, b) == Fail([Report(b.node, OpDimMismatch, Error)])
    ensures var r := BitwiseRule(op, a, b);
      r.write.None? ==> (r.reports != [] && forall j | 0 <= j < |r.reports| :: r.reports[j].diag == OpDimMismatch)
  {
    UndefinedMatchingPasses([a, b]);
    FlatPair(a, b);
    CheckFlatPasses([a, b]);
    assert [a, b][0] == a && [a, b][1] == b;
  }

  /** The bitwise operators of two simple values do not depend on the operand order. */
  lemma BitwiseCommutes(op: BitOp, x: Value, y: Value)
    requires x.Simple? && y.Simple?
    ensures Bitwise(op, x, y) == Bitwise(op, y, x)
  {
    var l, r := Bitwise(op, x, y).v.bits, Bitwise(op, y, x).v.bits;
    assert |l| == |r|;
    forall i | 0 <= i < |l| ensures l[i] == r[i] {
      var n := |l|;
      var s := x.v.signed && y.v.signed;
      var p, q := Extend(BitVec(x.v.bits, s), n).bits[i], Extend(BitVec(y.v.bits, s), n).bits[i];
      assert Apply4(op, p, q) == Apply4(op, q, p);
    }
    assert l == r;
  }
}
