/**
 * Four-state bits and bit vectors, the representation every compile-time value
 * of the expression evaluator is built from, together with the integer
 * conversions (`toBigInt`, `MutableBitList(value, width, signed)`), resizing,
 * minimum widths and shifts that the evaluator calls, and the JVM `Int`/`Long`
 * wrap-around the evaluator is exposed to.
 */
module Bits {

  datatype Bit = B0 | B1 | Bx | Bz

  /** A bit vector; `bits[0]` is the least significant bit. */
  datatype BitVec = BitVec(bits: seq<Bit>, signed: bool)

  predicate Known(b: Bit) { b == B0 || b == B1 }

  predicate AllKnown(bits: seq<Bit>) { forall i | 0 <= i < |bits| :: Known(bits[i]) }

  /** `isNumber`: no bit is X or Z. */
  predicate IsNumber(v: BitVec) { AllKnown(v.bits) }

  function Pow2(n: nat): (r: nat)
    ensures r >= 1
  {
    if n == 0 then 1 else 2 * Pow2(n - 1)
  }

  function BitValue(b: Bit): nat { if b == B1 then 1 else 0 }

  /** The plain binary reading of known bits. */
  function Unsigned(bits: seq<Bit>): (r: nat)
    requires AllKnown(bits)
    ensures r < Pow2(|bits|)
  {
    if bits == [] then 0 else BitValue(bits[0]) + 2 * Unsigned(bits[1..])
  }

  /** `x` is representable in `width` bits, two's complement when `signed`. */
  predicate Fits(x: int, width: nat, signed: bool)
  {
    if !signed then 0 <= x < Pow2(width)
    else if width == 0 then x == 0
    else -(Pow2(width - 1) as int) <= x < Pow2(width - 1)
  }

  /** The sign bit of a signed vector is set. */
  predicate Negative(v: BitVec)
  {
    v.signed && |v.bits| > 0 && v.bits[|v.bits| - 1] == B1
  }

  /** `toBigInt`: two's complement when the vector is signed, plain binary otherwise. */
  function ToInt(v: BitVec): (x: int)
    requires IsNumber(v)
    ensures Fits(x, |v.bits|, v.signed)
  {
    if |v.bits| == 0 then 0
    else
      MsbWeight(v.bits);
      if Negative(v) then Unsigned(v.bits) - Pow2(|v.bits|) else Unsigned(v.bits)
  }

  /** The low `width` bits of the two's complement of `x`. */
  function LowBits(x: int, width: nat): (bits: seq<Bit>)
    ensures |bits| == width && AllKnown(bits)
    ensures Unsigned(bits) == x % Pow2(width)
    decreases width
  {
    if width == 0 then []
    else
      var rest := LowBits(x / 2, width - 1);
      var bits := [if x % 2 == 1 then B1 else B0] + rest;
      assert bits[1..] == rest;
      ModHalving(x, Pow2(width - 1));
      bits
  }

  /** `MutableBitList(value, width, signed)`: `x` truncated to `width` bits. */
  function FromInt(x: int, width: nat, signed: bool): (v: BitVec)
    ensures |v.bits| == width && v.signed == signed && IsNumber(v)
    ensures Unsigned(v.bits) == x % Pow2(width)
  {
    BitVec(LowBits(x, width), signed)
  }

  /** `MutableBitList(BitValue.Bx, width, signed)`: a vector of X bits. */
  function AllX(width: nat, signed: bool): (v: BitVec)
    ensures |v.bits| == width && v.signed == signed
    ensures forall i | 0 <= i < width :: v.bits[i] == Bx
  {
    BitVec(seq(width, _ => Bx), signed)
  }

  // ---------------------------------------------------------------------
  // Arithmetic facts used by the conversions

  lemma DivModUnique(x: int, m: int, k: int, r: int)
    requires m > 0 && 0 <= r < m && x == m * k + r
    ensures x / m == k && x % m == r
  {
    var q, s := x / m, x % m;
    assert x == m * q + s;
    if q > k {
      assert m * q >= m * (k + 1) by { MulMonotone(m, k + 1, q); }
    } else if q < k {
      assert m * k >= m * (q + 1) by { MulMonotone(m, q + 1, k); }
    }
  }

  lemma DoubleProduct(p: int, u: int)
    ensures 2 * (p * u) == (2 * p) * u
  {
  }

  lemma MulSub(a: int, b: int, c: int)
    ensures a * (b - c) == a * b - a * c
  {
  }

  lemma MulMonotone(m: int, a: int, b: int)
    requires m >= 0 && a <= b
    ensures m * a <= m * b
  {
    assert m * b - m * a == m * (b - a);
  }

  lemma ModHalving(x: int, p: nat)
    requires p >= 1
    ensures x % (2 * p) == x % 2 + 2 * ((x / 2) % p)
  {
    var q, r := x / 2, x % 2;
    var a, b := q / p, q % p;
    assert x == (2 * p) * a + (2 * b + r) by {
      assert q == p * a + b;
      assert x == 2 * q + r;
    }
    DivModUnique(x, 2 * p, a, 2 * b + r);
  }

  lemma {:induction false} Pow2Add(a: nat, b: nat)
    ensures Pow2(a + b) == Pow2(a) * Pow2(b)
  {
    if a > 0 {
      Pow2Add(a - 1, b);
      assert Pow2(a + b) == 2 * Pow2(a - 1 + b);
    }
  }

  lemma Pow2Monotone(a: nat, b: nat)
    requires a <= b
    ensures Pow2(a) <= Pow2(b)
  {
    Pow2Add(a, b - a);
    MulMonotone(Pow2(a), 1, Pow2(b - a));
  }

  // ---------------------------------------------------------------------
  // Facts about the binary reading

  lemma {:induction false} UnsignedAppend(a: seq<Bit>, b: seq<Bit>)
    requires AllKnown(a) && AllKnown(b)
    ensures AllKnown(a + b)
    ensures Unsigned(a + b) == Unsigned(a) + Pow2(|a|) * Unsigned(b)
  {
    var ab := a + b;
    assert AllKnown(ab) by {
      forall i | 0 <= i < |ab| ensures Known(ab[i]) {
        if i < |a| { assert ab[i] == a[i]; } else { assert ab[i] == b[i - |a|]; }
      }
    }
    if a == [] {
      assert ab == b;
    } else {
      assert ab[1..] == a[1..] + b && ab[0] == a[0];
      assert AllKnown(a[1..]) by {
        assert forall i | 0 <= i < |a| - 1 :: a[1..][i] == a[i + 1];
      }
      UnsignedAppend(a[1..], b);
      var p: int, ub: int, ut: int := Pow2(|a| - 1), Unsigned(b), Unsigned(a[1..]);
      assert Unsigned(ab) == BitValue(a[0]) + 2 * (ut + p * ub);
      assert Unsigned(a) == BitValue(a[0]) + 2 * ut;
      AppendStep(BitValue(a[0]), ut, p, ub, Pow2(|a|));
    }
  }

  lemma AppendStep(b: int, ut: int, p: int, ub: int, pa: int)
    requires pa == 2 * p
    ensures b + 2 * (ut + p * ub) == (b + 2 * ut) + pa * ub
  {
    DoubleProduct(p, ub);
  }

  /** The top bit of `bits` weighs half the range. */
  lemma MsbWeight(bits: seq<Bit>)
    requires AllKnown(bits) && |bits| > 0
    ensures Pow2(|bits|) == 2 * Pow2(|bits| - 1)
    ensures bits[|bits| - 1] == B1 <==> Unsigned(bits) >= Pow2(|bits| - 1)
  {
    var n := |bits| - 1;
    var lo, top := bits[..n], [bits[n]];
    assert bits == lo + top;
    assert AllKnown(lo) by {
      forall i | 0 <= i < |lo| ensures Known(lo[i]) { assert lo[i] == bits[i]; }
    }
    assert top[1..] == [];
    UnsignedAppend(lo, top);
    assert Unsigned(top) == BitValue(bits[n]);
    TopWeight(Unsigned(lo), Pow2(n), Unsigned(top));
  }

  lemma TopWeight(u: int, p: int, t: int)
    requires 0 <= u < p && (t == 0 || t == 1)
    ensures t == 1 <==> u + p * t >= p
  {
  }

  /** Two vectors of known bits with the same length and reading are equal. */
  lemma {:induction false} UnsignedInjective(a: seq<Bit>, b: seq<Bit>)
    requires AllKnown(a) && AllKnown(b) && |a| == |b|
    requires Unsigned(a) == Unsigned(b)
    ensures a == b
  {
    if a != [] {
      assert BitValue(a[0]) == BitValue(b[0]);
      UnsignedInjective(a[1..], b[1..]);
      assert a == [a[0]] + a[1..] && b == [b[0]] + b[1..];
    }
  }

  lemma {:induction false} UnsignedConstant(b: Bit, n: nat)
    requires Known(b)
    ensures AllKnown(seq(n, _ => b))
    ensures Unsigned(seq(n, _ => b)) == if b == B1 then Pow2(n) - 1 else 0
  {
    var s := seq(n, _ => b);
    if n > 0 {
      assert s[1..] == seq(n - 1, _ => b);
      UnsignedConstant(b, n - 1);
    }
  }

  // ---------------------------------------------------------------------
  // Round trips between vectors and integers

  /** Encoding an integer that fits and reading it back gives the integer. */
  lemma FromIntToInt(x: int, width: nat, signed: bool)
    requires Fits(x, width, signed)
    ensures ToInt(FromInt(x, width, signed)) == x
  {
    var v := FromInt(x, width, signed);
    if width > 0 {
      MsbWeight(v.bits);
      if x < 0 {
        DivModUnique(x, Pow2(width), -1, x + Pow2(width));
      } else {
        DivModUnique(x, Pow2(width), 0, x);
      }
    }
  }

  /** Reading a vector and encoding it back at its width gives the vector. */
  lemma ToIntFromInt(v: BitVec)
    requires IsNumber(v)
    ensures FromInt(ToInt(v), |v.bits|, v.signed) == v
  {
    var w := |v.bits|;
    var u := FromInt(ToInt(v), w, v.signed);
    if Negative(v) {
      DivModUnique(ToInt(v), Pow2(w), -1, Unsigned(v.bits));
    } else {
      DivModUnique(ToInt(v), Pow2(w), 0, Unsigned(v.bits));
    }
    UnsignedInjective(u.bits, v.bits);
  }

  /** Two encodings at the same width agree when the integers agree modulo 2^width. */
  lemma FromIntCongruent(x: int, y: int, width: nat, signed: bool)
    requires x % Pow2(width) == y % Pow2(width)
    ensures FromInt(x, width, signed) == FromInt(y, width, signed)
  {
    UnsignedInjective(FromInt(x, width, signed).bits, FromInt(y, width, signed).bits);
  }

  // ---------------------------------------------------------------------
  // Resizing (`resize`): truncation keeps the low bits, extension repeats the
  // sign bit of a signed vector and adds zeros to an unsigned one

  function Fill(v: BitVec): Bit
  {
    if v.signed && |v.bits| > 0 then v.bits[|v.bits| - 1] else B0
  }

  function Extend(v: BitVec, n: nat): (r: BitVec)
    ensures |r.bits| == n && r.signed == v.signed
    ensures forall i | 0 <= i < n && i < |v.bits| :: r.bits[i] == v.bits[i]
    ensures forall i | |v.bits| <= i < n :: r.bits[i] == Fill(v)
  {
    if n <= |v.bits| then BitVec(v.bits[..n], v.signed)
    else BitVec(v.bits + seq(n - |v.bits|, _ => Fill(v)), v.signed)
  }

  /** On numbers, resizing is re-encoding the integer at the new width. */
  lemma ExtendIsReencoding(v: BitVec, n: nat)
    requires IsNumber(v)
    ensures IsNumber(Extend(v, n))
    ensures Extend(v, n) == FromInt(ToInt(v), n, v.signed)
  {
    if n <= |v.bits| { TruncationReading(v, n); } else { ExtensionReading(v, n); }
    UnsignedInjective(Extend(v, n).bits, FromInt(ToInt(v), n, v.signed).bits);
  }

  lemma TruncationReading(v: BitVec, n: nat)
    requires IsNumber(v) && n <= |v.bits|
    ensures IsNumber(Extend(v, n))
    ensures Unsigned(Extend(v, n).bits) == ToInt(v) % Pow2(n)
  {
    assert Extend(v, n) == BitVec(v.bits[..n], v.signed);
    LowPartReading(v, n);
  }

  /** The low `n` bits of a vector read as its integer modulo `2^n`. */
  lemma LowPartReading(v: BitVec, n: nat)
    requires IsNumber(v) && n <= |v.bits|
    ensures AllKnown(v.bits[..n])
    ensures Unsigned(v.bits[..n]) == ToInt(v) % Pow2(n)
  {
    UnsignedPrefix(v.bits, n);
    NegativeReading(v, n);
  }

  /** The two's complement reading and the plain one agree modulo `2^n` for `n` up to the width. */
  lemma NegativeReading(v: BitVec, n: nat)
    requires IsNumber(v) && n <= |v.bits|
    ensures ToInt(v) % Pow2(n) == Unsigned(v.bits) % Pow2(n)
  {
    var w := |v.bits|;
    if Negative(v) {
      Pow2Add(n, w - n);
      assert n + (w - n) == w;
      ModMultiple(Unsigned(v.bits), Pow2(n), Pow2(w - n));
    }
  }

  /** The first `n` bits read as the whole reading modulo `2^n`. */
  lemma {:induction false} UnsignedPrefix(bits: seq<Bit>, n: nat)
    requires AllKnown(bits) && n <= |bits|
    ensures AllKnown(bits[..n])
    ensures Unsigned(bits[..n]) == Unsigned(bits) % Pow2(n)
  {
    var lo := bits[..n];
    assert AllKnown(lo) by {
      assert forall i | 0 <= i < |lo| :: lo[i] == bits[i];
    }
    if n > 0 {
      var rest := bits[1..];
      assert AllKnown(rest) by {
        assert forall i | 0 <= i < |rest| :: rest[i] == bits[i + 1];
      }
      UnsignedPrefix(rest, n - 1);
      assert lo[0] == bits[0] && lo[1..] == rest[..n - 1];
      var x, u1 := Unsigned(bits), Unsigned(rest);
      assert x == BitValue(bits[0]) + 2 * u1;
      DivModUnique(x, 2, u1, BitValue(bits[0]));
      ModHalving(x, Pow2(n - 1));
    }
  }

  /** Subtracting a multiple of `p` keeps the remainder. */
  lemma ModMultiple(u: int, p: int, m: int)
    requires p >= 1
    ensures (u - p * m) % p == u % p
  {
    DivModUnique(u - p * m, p, u / p - m, u % p);
  }

  lemma ExtensionReading(v: BitVec, n: nat)
    requires IsNumber(v) && n > |v.bits|
    ensures IsNumber(Extend(v, n))
    ensures Unsigned(Extend(v, n).bits) == ToInt(v) % Pow2(n)
  {
    if Negative(v) { SignExtensionReading(v, n); } else { ZeroExtensionReading(v, n); }
  }

  /** The extended vector reads as the original followed by copies of its fill bit. */
  lemma ExtendedReading(v: BitVec, n: nat)
    requires IsNumber(v) && n > |v.bits| && Known(Fill(v))
    ensures IsNumber(Extend(v, n))
    ensures Unsigned(Extend(v, n).bits) == Unsigned(v.bits) + Pow2(|v.bits|) * Unsigned(seq(n - |v.bits|, _ => Fill(v)))
  {
    var fill := seq(n - |v.bits|, _ => Fill(v));
    assert Extend(v, n).bits == v.bits + fill;
    UnsignedConstant(Fill(v), n - |v.bits|);
    UnsignedAppend(v.bits, fill);
  }

  lemma SignExtensionReading(v: BitVec, n: nat)
    requires IsNumber(v) && n > |v.bits| && Negative(v)
    ensures IsNumber(Extend(v, n))
    ensures Unsigned(Extend(v, n).bits) == ToInt(v) % Pow2(n)
  {
    var w := |v.bits|;
    var u, e := Unsigned(v.bits), Unsigned(seq(n - w, _ => B1));
    assert ToInt(v) == u - Pow2(w);
    assert Fill(v) == B1;
    ExtendedReading(v, n);
    UnsignedConstant(B1, n - w);
    Pow2Add(w, n - w);
    assert w + (n - w) == n;
    SignArith(ToInt(v), u, Pow2(w), Pow2(n - w), e, Unsigned(Extend(v, n).bits));
  }

  /** The arithmetic of sign extension: the negative reading plus `2^n` is its remainder. */
  lemma SignArith(x: int, u: int, pw: int, pm: int, e: int, r: int)
    requires 0 <= u < pw && pm >= 1 && x == u - pw && e == pm - 1 && r == u + pw * e
    ensures r == x % (pw * pm)
  {
    MulSub(pw, pm, 1);
    DivModUnique(x, pw * pm, -1, r);
  }

  lemma ZeroExtensionReading(v: BitVec, n: nat)
    requires IsNumber(v) && n > |v.bits| && !Negative(v)
    ensures IsNumber(Extend(v, n))
    ensures Unsigned(Extend(v, n).bits) == ToInt(v) % Pow2(n)
  {
    var w := |v.bits|;
    assert Fill(v) == B0 by { if v.signed && w > 0 { assert Known(v.bits[w - 1]); } }
    ExtendedReading(v, n);
    UnsignedConstant(B0, n - w);
    assert Unsigned(Extend(v, n).bits) == Unsigned(v.bits) + Pow2(w) * 0;
    Pow2Monotone(w, n);
    DivModUnique(ToInt(v), Pow2(n), 0, ToInt(v));
  }

  // ---------------------------------------------------------------------
  // Minimum widths (`minBits`)

  function MinUnsigned(x: nat): nat
  {
    if x == 0 then 0 else 1 + MinUnsigned(x / 2)
  }

  function MinSigned(x: int): (n: nat)
    ensures n >= 1
    decreases if x < 0 then -x else x
  {
    if x == 0 || x == -1 then 1 else 1 + MinSigned(x / 2)
  }

  /** `minBits`: the fewest bits that hold the vector's number in its own signedness. */
  function MinBits(v: BitVec): nat
  {
    if !IsNumber(v) then |v.bits|
    else if v.signed then MinSigned(ToInt(v))
    else MinUnsigned(ToInt(v))
  }

  lemma {:induction false} MinUnsignedFits(x: nat, n: nat)
    ensures Fits(x, n, false) <==> MinUnsigned(x) <= n
  {
    if x > 0 && n > 0 {
      MinUnsignedFits(x / 2, n - 1);
    }
  }

  lemma {:induction false} MinSignedFits(x: int, n: nat)
    requires n >= 1
    ensures Fits(x, n, true) <==> MinSigned(x) <= n
    decreases n
  {
    if x == 0 || x == -1 {
      assert MinSigned(x) == 1 && Pow2(n - 1) >= 1;
    } else {
      assert MinSigned(x) == 1 + MinSigned(x / 2);
      if n == 1 {
        assert Pow2(0) == 1;
      } else {
        MinSignedFits(x / 2, n - 1);
        assert Pow2(n - 1) == 2 * Pow2(n - 2);
        HalfRange(x, Pow2(n - 2));
      }
    }
  }

  /** Halving (rounding down) maps the range `[-2q, 2q)` onto `[-q, q)`. */
  lemma HalfRange(x: int, q: int)
    requires q >= 1
    ensures -2 * q <= x < 2 * q <==> -q <= x / 2 < q
  {
  }

  /** A number keeps its value under a resize exactly when it has at most that many significant bits. */
  lemma MinBitsFits(v: BitVec, n: nat)
    requires IsNumber(v) && n >= 1
    ensures Fits(ToInt(v), n, v.signed) <==> MinBits(v) <= n
  {
    if v.signed { MinSignedFits(ToInt(v), n); } else { MinUnsignedFits(ToInt(v), n); }
  }

  // ---------------------------------------------------------------------
  // Shifts (`ushr`, `shr`, `ushl`, `shl`); a negative amount shifts by nothing

  function Amount(n: int): nat { if n < 0 then 0 else n }

  /** `ushr`: width kept, zeros shifted in, result unsigned. */
  function ShiftRightLogical(v: BitVec, n: int): (r: BitVec)
    ensures |r.bits| == |v.bits| && !r.signed
  {
    var k := Amount(n);
    BitVec(seq(|v.bits|, i requires 0 <= i < |v.bits| => if i + k < |v.bits| then v.bits[i + k] else B0), false)
  }

  /** `shr`: width kept, copies of the sign bit of a signed vector shifted in. */
  function ShiftRightArith(v: BitVec, n: int): (r: BitVec)
    ensures |r.bits| == |v.bits| && r.signed == v.signed
  {
    var k := Amount(n);
    BitVec(seq(|v.bits|, i requires 0 <= i < |v.bits| => if i + k < |v.bits| then v.bits[i + k] else Fill(v)), v.signed)
  }

  /** `ushl`: the vector grows by the shift amount, result unsigned. */
  function ShiftLeftLogical(v: BitVec, n: int): (r: BitVec)
    ensures |r.bits| == |v.bits| + Amount(n) && !r.signed
  {
    BitVec(seq(Amount(n), _ => B0) + v.bits, false)
  }

  /** `shl`: the vector grows by the shift amount, signedness kept. */
  function ShiftLeftArith(v: BitVec, n: int): (r: BitVec)
    ensures |r.bits| == |v.bits| + Amount(n) && r.signed == v.signed
  {
    BitVec(seq(Amount(n), _ => B0) + v.bits, v.signed)
  }

  /** A left shift of a number multiplies its binary reading by 2^n. */
  lemma ShiftLeftMultiplies(v: BitVec, n: nat)
    requires IsNumber(v)
    ensures IsNumber(ShiftLeftLogical(v, n))
    ensures Unsigned(ShiftLeftLogical(v, n).bits) == Pow2(n) * Unsigned(v.bits)
  {
    UnsignedConstant(B0, n);
    UnsignedAppend(seq(n, _ => B0), v.bits);
    assert ShiftLeftLogical(v, n).bits == seq(n, _ => B0) + v.bits;
  }

  /** A logical right shift of a number divides its binary reading by 2^n. */
  lemma ShiftRightDivides(v: BitVec, n: nat)
    requires IsNumber(v)
    ensures IsNumber(ShiftRightLogical(v, n))
    ensures Unsigned(ShiftRightLogical(v, n).bits) == Unsigned(v.bits) / Pow2(n)
  {
    if n >= |v.bits| { ShiftOutAll(v, n); } else { ShiftOutLow(v, n); }
  }

  lemma ShiftOutAll(v: BitVec, n: nat)
    requires IsNumber(v) && n >= |v.bits|
    ensures IsNumber(ShiftRightLogical(v, n))
    ensures Unsigned(ShiftRightLogical(v, n).bits) == Unsigned(v.bits) / Pow2(n)
  {
    var w := |v.bits|;
    UnsignedConstant(B0, w);
    assert ShiftRightLogical(v, n).bits == seq(w, _ => B0);
    Pow2Monotone(w, n);
    DivModUnique(Unsigned(v.bits), Pow2(n), 0, Unsigned(v.bits));
  }

  lemma ShiftOutLow(v: BitVec, n: nat)
    requires IsNumber(v) && n < |v.bits|
    ensures IsNumber(ShiftRightLogical(v, n))
    ensures Unsigned(ShiftRightLogical(v, n).bits) == Unsigned(v.bits) / Pow2(n)
  {
    var lo, hi := v.bits[..n], v.bits[n..];
    assert v.bits == lo + hi;
    UnsignedAppend(lo, hi);
    var zeros := seq(n, _ => B0);
    assert ShiftRightLogical(v, n).bits == hi + zeros;
    UnsignedConstant(B0, n);
    UnsignedAppend(hi, zeros);
    DivModUnique(Unsigned(v.bits), Pow2(n), Unsigned(hi), Unsigned(lo));
  }

  /**
   * An arithmetic right shift of a number divides its reading by 2^n,
   * rounding toward negative infinity: a negative signed number stays
   * negative and ends at -1 once every bit is shifted out.
   */
  lemma {:induction false} ShiftRightArithDivides(v: BitVec, n: nat)
    requires IsNumber(v)
    ensures IsNumber(ShiftRightArith(v, n))
    ensures ToInt(ShiftRightArith(v, n)) == ToInt(v) / Pow2(n)
  {
    if n == 0 {
      assert ShiftRightArith(v, 0).bits == v.bits;
    } else {
      ShiftRightArithDivides(v, n - 1);
      var u := ShiftRightArith(v, n - 1);
      ShiftArithStep(v, n - 1);
      ShiftArithOne(u);
      HalveTwice(ToInt(v), Pow2(n - 1));
    }
  }

  /** Shifting by one more place is shifting the shifted vector by one. */
  lemma ShiftArithStep(v: BitVec, n: nat)
    ensures ShiftRightArith(v, n + 1) == ShiftRightArith(ShiftRightArith(v, n), 1)
  {
    var u := ShiftRightArith(v, n);
    assert Fill(u) == Fill(v);
    assert ShiftRightArith(v, n + 1).bits == ShiftRightArith(u, 1).bits;
  }

  /** Halving after dividing by `p` is dividing by `2p`. */
  lemma HalveTwice(x: int, p: int)
    requires p >= 1
    ensures (x / p) / 2 == x / (2 * p)
  {
    var q, r := x / p, x % p;
    var q2, r2 := q / 2, q % 2;
    assert x == p * q + r;
    assert q == 2 * q2 + r2;
    var e := if r2 == 1 then p else 0;
    assert p * q == (2 * p) * q2 + e by {
      MulSub(p, q, 2 * q2);
      assert p * (2 * q2) == (2 * p) * q2;
    }
    DivModUnique(x, 2 * p, q2, e + r);
  }

  /** The fill bit of a number is a known bit, set exactly when the number is negative. */
  lemma FillKnown(v: BitVec)
    requires IsNumber(v)
    ensures Known(Fill(v))
    ensures Fill(v) == B1 <==> Negative(v)
  {
    if v.signed && |v.bits| > 0 { assert Known(v.bits[|v.bits| - 1]); }
  }

  /** An arithmetic right shift by one halves the reading, rounding down. */
  lemma ShiftArithOne(v: BitVec)
    requires IsNumber(v)
    ensures IsNumber(ShiftRightArith(v, 1))
    ensures ToInt(ShiftRightArith(v, 1)) == ToInt(v) / 2
  {
    var w := |v.bits|;
    if w <= 1 {
      ArithOutAll(v, 1);
    } else {
      var h := BitVec(v.bits[1..], v.signed);
      LowBitReading(v);
      assert Fill(h) == Fill(v);
      assert ShiftRightArith(v, 1).bits == Extend(h, w).bits;
      ExtendIsReencoding(h, w);
      FitsWider(ToInt(h), w - 1, w, v.signed);
      FromIntToInt(ToInt(h), w, v.signed);
      DivModUnique(ToInt(v), 2, ToInt(h), BitValue(v.bits[0]));
    }
  }

  /** A number of two or more bits reads as its low bit plus twice the reading of the rest. */
  lemma LowBitReading(v: BitVec)
    requires IsNumber(v) && |v.bits| >= 2
    ensures IsNumber(BitVec(v.bits[1..], v.signed))
    ensures ToInt(v) == BitValue(v.bits[0]) + 2 * ToInt(BitVec(v.bits[1..], v.signed))
  {
    var w, rest := |v.bits|, v.bits[1..];
    assert AllKnown(rest) by {
      forall i | 0 <= i < |rest| ensures Known(rest[i]) { assert rest[i] == v.bits[i + 1]; }
    }
    assert rest[|rest| - 1] == v.bits[w - 1];
    assert Pow2(w) == 2 * Pow2(w - 1);
  }

  /** Shifting every bit out leaves copies of the fill bit: -1 for a negative number, else 0. */
  lemma ArithOutAll(v: BitVec, n: nat)
    requires IsNumber(v) && n >= |v.bits|
    ensures IsNumber(ShiftRightArith(v, n))
    ensures ToInt(ShiftRightArith(v, n)) == ToInt(v) / Pow2(n)
  {
    var w := |v.bits|;
    var r := ShiftRightArith(v, n);
    FillKnown(v);
    assert r.bits == seq(w, _ => Fill(v));
    UnsignedConstant(Fill(v), w);
    Pow2Monotone(w, n);
    if Negative(v) {
      assert Negative(r);
      assert ToInt(r) == -1;
      DivModUnique(ToInt(v), Pow2(n), -1, ToInt(v) + Pow2(n));
    } else {
      assert w > 0 ==> r.bits[w - 1] == B0;
      assert ToInt(r) == 0;
      DivModUnique(ToInt(v), Pow2(n), 0, ToInt(v));
    }
  }

  /** A number that fits `n` bits fits `m >= n` bits. */
  lemma FitsWider(x: int, n: nat, m: nat, signed: bool)
    requires Fits(x, n, signed) && n <= m
    ensures Fits(x, m, signed)
  {
    Pow2Monotone(n, m);
    if signed && n > 0 {
      Pow2Monotone(n - 1, m - 1);
    }
  }

  // ---------------------------------------------------------------------
  // JVM integer widths

  /** `intValueExact` succeeds. */
  predicate InInt(x: int) { -0x8000_0000 <= x < 0x8000_0000 }

  /** `BigInteger.toInt()` and `Int` arithmetic: the low 32 bits, two's complement. */
  function Int32(x: int): (r: int)
    ensures InInt(r)
    ensures InInt(x) ==> r == x
    ensures (x - r) % 0x1_0000_0000 == 0
  {
    (x + 0x8000_0000) % 0x1_0000_0000 - 0x8000_0000
  }

  /** `Long` arithmetic: the low 64 bits, two's complement. */
  function Int64(x: int): (r: int)
    ensures -0x8000_0000_0000_0000 <= r < 0x8000_0000_0000_0000
    ensures -0x8000_0000_0000_0000 <= x < 0x8000_0000_0000_0000 ==> r == x
    ensures (x - r) % 0x1_0000_0000_0000_0000 == 0
  {
    (x + 0x8000_0000_0000_0000) % 0x1_0000_0000_0000_0000 - 0x8000_0000_0000_0000
  }

  /** `Int` arithmetic only sees its operands modulo 2^32. */
  lemma Int32Congruent(x: int, y: int)
    requires (x - y) % 0x1_0000_0000 == 0
    ensures Int32(x) == Int32(y)
  {
    var m, h := 0x1_0000_0000, 0x8000_0000;
    var k := (x - y) / m;
    assert x - y == m * k;
    DivModUnique(x + h, m, (y + h) / m + k, (y + h) % m);
  }

  /** Wrapping after every addition is wrapping once at the end. */
  lemma Int32Add(a: int, b: int)
    ensures Int32(Int32(a) + b) == Int32(a + b)
  {
    var m := 0x1_0000_0000;
    var k := (a - Int32(a)) / m;
    assert a - Int32(a) == m * k;
    assert (Int32(a) + b) - (a + b) == m * (-k);
    DivModUnique((Int32(a) + b) - (a + b), m, -k, 0);
    Int32Congruent(Int32(a) + b, a + b);
  }

  /** `Long` arithmetic only sees its operands modulo 2^64. */
  lemma Int64Congruent(x: int, y: int)
    requires (x - y) % 0x1_0000_0000_0000_0000 == 0
    ensures Int64(x) == Int64(y)
  {
    var m, h := 0x1_0000_0000_0000_0000, 0x8000_0000_0000_0000;
    var k := (x - y) / m;
    assert x - y == m * k;
    DivModUnique(x + h, m, (y + h) / m + k, (y + h) % m);
  }

  /** Wrapping after every multiplication is wrapping once at the end. */
  lemma Int64Mul(a: int, b: int)
    ensures Int64(a * Int64(b)) == Int64(a * b)
  {
    var m := 0x1_0000_0000_0000_0000;
    var k := (b - Int64(b)) / m;
    assert b - Int64(b) == m * k;
    MulSub(a, b, Int64(b));
    assert a * b - a * Int64(b) == a * (m * k);
    assert a * (m * k) == m * (a * k);
    DivModUnique(a * b - a * Int64(b), m, a * k, 0);
    Int64Congruent(a * Int64(b), a * b);
  }
}
