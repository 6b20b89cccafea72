/** What the operations of `il::execute` (core/src/il.rs:636-1059) mean in terms of integer arithmetic: `/` and `%`
  round toward minus infinity for the positive divisors used here. */
module Operations {
  import opened Bits
  import opened Il
  import opened Rreil

  // ----- Two's complement -----

  lemma NegatedRemainder(a: int, m: nat)
    requires 0 <= a && 0 < m
    ensures -a % m == if a % m == 0 then 0 else m - a % m
  {
    var q, r := a / m, a % m;
    var t := q * m;
    assert a == t + r;
    if r == 0 {
      assert -q * m == -t;
      QuotientIs(-a, m, -q, 0);
    } else {
      assert (-q - 1) * m == -t - m;
      QuotientIs(-a, m, -q - 1, m - r);
    }
  }

  /** Going back to `w` bits is the remainder. */
  lemma UnsignedIs(v: int, w: nat)
    ensures Unsigned(v, w) == v % Pow2(w)
  {
    hide Pow2, Low;
    var m := Pow2(w);
    if v >= 0 {
      LowIsRemainder(v, w, m);
    } else {
      var r := -v % m;
      LowIsRemainder(-v, w, m);
      LowIsRemainder(m - r, w, m);
      NegatedRemainder(-v, m);
      if r == 0 { QuotientIs(m, m, 1, 0); } else { QuotientIs(m - r, m, 0, m - r); }
    }
  }

  /** The signed reading is the number in range with the same remainder. */
  lemma SignedIs(v: nat, w: nat)
    requires 0 < w && v < Pow2(w)
    ensures -(Pow2(w - 1) as int) <= Signed(v, w) < Pow2(w - 1)
    ensures Signed(v, w) % Pow2(w) == v
    ensures Signed(v, w) == 0 <==> v == 0
  {
    hide Pow2;
    NextPower(w - 1);
    QuotientIs(Signed(v, w), Pow2(w), if Signed(v, w) < 0 then -1 else 0, v);
  }

  // ----- Multiplication and unsigned division -----

  lemma ExecuteMultiply(x: nat, y: nat, w: nat)
    requires w <= 64
    ensures Execute2(Multiply, Const(x, w), Const(y, w)) == Some(Const(x * y % Pow2(w), w))
  {
    hide Low, Pow2;
    LowIsRemainder(x * y, w, Pow2(w));
  }

  lemma QuotientBelow(x: nat, y: nat)
    requires y > 0
    ensures x / y <= x && x % y <= x
  {
    var q, r := x / y, x % y;
    AtLeast(q, y);
    assert x == q * y + r;
  }

  lemma AtLeast(q: nat, y: nat)
    requires y > 0
    ensures q <= q * y
  {
  }

  /** Quotient and remainder, undefined for divisor 0. */
  lemma ExecuteDivideUnsigned(x: nat, y: nat, w: nat)
    requires w <= 64 && x < Pow2(w) && y < Pow2(w)
    ensures y == 0 ==> Execute2(DivideUnsigned, Const(x, w), Const(y, w)) == None
    ensures y > 0 ==> Execute2(DivideUnsigned, Const(x, w), Const(y, w)) == Some(Const(x / y, w))
  {
    hide Low, Pow2;
    LowOfSmall(y, w);
    if y > 0 {
      QuotientBelow(x, y);
      LowOfSmall(x / y, w);
    }
  }

  lemma ExecuteModulo(x: nat, y: nat, w: nat)
    requires w <= 64 && x < Pow2(w) && y < Pow2(w)
    ensures y == 0 ==> Execute2(Modulo, Const(x, w), Const(y, w)) == None
    ensures y > 0 ==> Execute2(Modulo, Const(x, w), Const(y, w)) == Some(Const(x % y, w))
  {
    hide Low, Pow2;
    if y > 0 {
      QuotientBelow(x, y);
      LowOfSmall(x % y, w);
    }
  }

  // ----- Signed division -----

  function Abs(a: int): nat {
    if a < 0 then -a else a
  }

  /** `q` is `a` divided by `b`, cut off toward zero. */
  predicate Truncates(a: int, b: int, q: int) {
    && Abs(q) * Abs(b) <= Abs(a) < (Abs(q) + 1) * Abs(b)
    && (q != 0 ==> (q < 0 <==> (a < 0) != (b < 0)))
  }

  /** There is exactly one such quotient. */
  lemma TruncatedIs(a: int, b: int, q: int)
    requires b != 0
    ensures Truncates(a, b, q) <==> q == TruncatedQuotient(a, b)
  {
    var n, d := Abs(a), Abs(b);
    var t := TruncatedQuotient(a, b);
    assert Abs(t) == n / d;
    assert n / d * d <= n < (n / d + 1) * d;
    if Truncates(a, b, q) {
      var r := n - Abs(q) * d;
      assert (Abs(q) + 1) * d == Abs(q) * d + d;
      QuotientIs(n, d, Abs(q), r);
    }
  }

  /** The quotient modulo 2^w, undefined for divisor 0. Only the lowest number divided by -1 is out of range. */
  lemma ExecuteDivideSigned(x: nat, y: nat, w: nat, q: int)
    requires 0 < w <= 64 && x < Pow2(w) && y < Pow2(w) && (y > 0 ==> Truncates(Signed(x, w), Signed(y, w), q))
    ensures y == 0 ==> Execute2(DivideSigned, Const(x, w), Const(y, w)) == None
    ensures y > 0 ==> Execute2(DivideSigned, Const(x, w), Const(y, w)) == Some(Const(q % Pow2(w), w))
  {
    hide Low, Pow2, SignedOperand, Signed, TruncatedQuotient, Truncates, Unsigned;
    SignedIs(y, w);
    SignedOperandReduced(x, w);
    SignedOperandReduced(y, w);
    if y > 0 {
      TruncatedIs(Signed(x, w), Signed(y, w), q);
      UnsignedIs(q, w);
      LowOfSmall(Unsigned(q, w), w);
    }
  }

  // ----- Shifts -----

  lemma ExecuteShiftRightUnsigned(x: nat, y: nat, w: nat)
    requires w <= 64 && x < Pow2(w) && y < Pow2(w)
    ensures Execute2(ShiftRightUnsigned, Const(x, w), Const(y, w)) == Some(Const(x / Pow2(y), w))
  {
    hide Execute2, Pow2;
    ShiftUnreduced(x, y, w);
    if y >= w {
      PowMonotone(w, y);
      QuotientIs(x, Pow2(y), 0, x);
    } else {
      QuotientBelow(x, Pow2(y));
      QuotientIs(x / Pow2(y), Pow2(w), 0, x / Pow2(y));
    }
  }

  /** An arithmetic shift divides by the power of two and rounds down. */
  lemma ShiftedIsFloor(a: int, b: nat)
    ensures ShiftedRightSigned(a, b) == a / Pow2(b)
  {
    hide Low, Pow2, Shr;
    var m := Pow2(b);
    if a >= 0 {
      LowIsRemainder(a, b, m);
    } else {
      LowIsRemainder(-1 - a, b, m);
      var q, r := (-1 - a) / m, (-1 - a) % m;
      assert a == (-1 - q) * m + (m - 1 - r);
      QuotientIs(a, m, -1 - q, m - 1 - r);
    }
  }

  /** From the width on, every further shift leaves the sign. */
  lemma FloorOfSign(a: int, w: nat, b: nat)
    requires w <= b && -(Pow2(w) as int) <= a < Pow2(w)
    ensures a / Pow2(b) == if a < 0 then -1 else 0
  {
    hide Pow2;
    PowMonotone(w, b);
    if a < 0 { QuotientIs(a, Pow2(b), -1, a + Pow2(b)); } else { QuotientIs(a, Pow2(b), 0, a); }
  }

  lemma ExecuteShiftRightSigned(x: nat, y: nat, w: nat)
    requires 0 < w <= 64 && x < Pow2(w) && y < Pow2(w)
    ensures Execute2(ShiftRightSigned, Const(x, w), Const(y, w)) ==
            Some(Const(Signed(x, w) / Pow2(y) % Pow2(w), w))
  {
    hide Low, Pow2, SignedOperand, Signed, ShiftedRightSigned, Unsigned;
    var a, b := Signed(x, w), if y >= w then w else y;
    SignedIs(x, w);
    SignedOperandReduced(x, w);
    ShiftedIsFloor(a, b);
    if y >= w {
      NextPower(w - 1);
      FloorOfSign(a, w, w);
      FloorOfSign(a, w, y);
    }
    UnsignedIs(a / Pow2(b), w);
    LowOfSmall(Unsigned(a / Pow2(b), w), w);
  }

  /** Shifting left takes the shift count modulo 64. */
  lemma ExecuteShiftLeft(x: nat, y: nat, w: nat)
    requires w <= 64
    ensures Execute2(ShiftLeft, Const(x, w), Const(y, w)) == Some(Const(x * Pow2(y % 64) % Pow2(w), w))
  {
    hide Low, Pow2, Shl;
    ShlIsProduct(x, y % 64);
    LowIsRemainder(x * Pow2(y % 64), w, Pow2(w));
  }

  /** So it multiplies by 2^y modulo 2^w iff the count is below 64, or the bits that stay are zero anyway. */
  lemma ShiftLeftRightIff(x: nat, y: nat, w: nat)
    requires w <= 64 && x < Pow2(w) && y < Pow2(w)
    ensures Execute2(ShiftLeft, Const(x, w), Const(y, w)) == Some(Const(x * Pow2(y) % Pow2(w), w)) <==>
            y < 64 || x * Pow2(y % 64) % Pow2(w) == 0
  {
    hide Pow2, Execute2;
    ExecuteShiftLeft(x, y, w);
    if y >= 64 {
      Pow2Add(y - w, w);
      assert x * (Pow2(y - w) * Pow2(w)) == x * Pow2(y - w) * Pow2(w);
      QuotientIs(x * Pow2(y), Pow2(w), x * Pow2(y - w), 0);
    }
  }

  /** 1 shifted left by 64 is 1 again. */
  lemma ShiftBy64IsNone()
    ensures Execute2(ShiftLeft, Const(1, 64), Const(64, 64)) == Some(Const(1, 64))
  {
    hide Pow2, Execute2;
    Powers();
    ExecuteShiftLeft(1, 64, 64);
  }

  // ----- Operands with bits beyond their size -----

  lemma DifferenceOfRemainders(x: nat, y: nat, m: nat)
    requires m > 0
    ensures (x % m + m - y % m) % m == (x - y) % m
  {
    var a, b := x % m, y % m;
    var d := a + m - b;
    var r := if d < m then d else d - m;
    QuotientIs(d, m, if d < m then 0 else 1, r);
    var q := x / m - y / m - 1 + if d < m then 0 else 1;
    assert x == x / m * m + a && y == y / m * m + b;
    assert q * m == x / m * m - y / m * m - m + if d < m then 0 else m;
    QuotientIs(x - y, m, q, r);
  }

  /** Whatever the operands, sum and difference are taken modulo the size. */
  lemma SumUnreduced(x: Const, y: Const)
    ensures var m := Pow2(Width(x.size));
            && Execute2(Add, x, y) == Some(Const((x.value + y.value) % m, x.size))
            && Execute2(Subtract, x, y) == Some(Const((x.value - y.value) % m, x.size))
  {
    hide Low, Pow2;
    var w, m := Width(x.size), Pow2(Width(x.size));
    LowIsRemainder(x.value, w, m);
    LowIsRemainder(y.value, w, m);
    LowIsRemainder(x.value + y.value, w, m);
    LowIsRemainder(x.value % m + m - y.value % m, w, m);
    DifferenceOfRemainders(x.value, y.value, m);
  }

  /** Unsigned division, remainder and right shift read all bits of the operands; only the result is truncated. */
  lemma DivisionUnreduced(x: nat, y: nat, w: nat)
    requires w <= 64
    ensures y % Pow2(w) == 0 ==> Execute2(DivideUnsigned, Const(x, w), Const(y, w)) == None
    ensures y % Pow2(w) != 0 ==>
              y != 0 && Execute2(DivideUnsigned, Const(x, w), Const(y, w)) == Some(Const(x / y % Pow2(w), w))
    ensures y != 0 ==> Execute2(Modulo, Const(x, w), Const(y, w)) == Some(Const(x % y % Pow2(w), w))
  {
    hide Low, Pow2;
    LowIsRemainder(y, w, Pow2(w));
    if y == 0 {
      QuotientIs(0, Pow2(w), 0, 0);
    } else {
      LowIsRemainder(x / y, w, Pow2(w));
      LowIsRemainder(x % y, w, Pow2(w));
    }
  }

  lemma ShiftUnreduced(x: nat, y: nat, w: nat)
    requires w <= 64
    ensures Execute2(ShiftRightUnsigned, Const(x, w), Const(y, w)) ==
            Some(Const(if y < w then x / Pow2(y) % Pow2(w) else 0, w))
  {
    hide Low, Pow2, Shr;
    LowIsRemainder(x, y, Pow2(y));
    LowIsRemainder(x / Pow2(y), w, Pow2(w));
    LowOfSmall(0, w);
  }

  /** The signed operations too: 0x18000 as a number of 16 bits is read as 0x8000 and 0xffffffffffff0001 as -65535,
    where the lower 16 bits say -0x8000 and 1. */
  lemma SignedReadsUpperBits()
    ensures SignedOperand(0x1_8000, 16) == 0x8000 && SignedOperand(0xffff_ffff_ffff_0001, 16) == -65535
    ensures Execute2(LessSigned, Const(0x1_8000, 16), Const(0, 16)) == Truth(false)
    ensures Execute2(LessSigned, Const(0x8000, 16), Const(0, 16)) == Truth(true)
  {
    hide Low, Pow2;
    Powers();
    NextPower(15);
    LowIsRemainder(0x1_8000, 16, 0x1_0000);
    LowIsRemainder(0xffff_ffff_ffff_0001, 16, 0x1_0000);
    LowIsRemainder(0x8000, 16, 0x1_0000);
    LowOfSmall(0, 16);
    assert Wrapped64(0xffff_ffff_ffff_0001) == -65535;
  }

  // ----- Extension -----

  /** Extension keeps the unsigned or the signed value, modulo the new width; a negative value extended to fewer
    bits than it has stays as it is. */
  lemma ExecuteExtend(x: nat, w: nat, t: nat)
    requires 0 < w <= 64 && t <= 64 && x < Pow2(w)
    ensures Execute1(ZeroExtend(t), Const(x, w)) == Some(Const(x % Pow2(t), t))
    ensures !(t < w < 64 && Signed(x, w) < 0) ==>
              Execute1(SignExtend(t), Const(x, w)) == Some(Const(Signed(x, w) % Pow2(t), t))
    ensures t < w < 64 && Signed(x, w) < 0 ==> Execute1(SignExtend(t), Const(x, w)) == Some(Const(x, t))
    ensures Execute1(Move, Const(x, w)) == Some(Const(x, w))
  {
    hide Low, Pow2, Signed, Unsigned;
    LowOfSmall(x, w);
    LowIsRemainder(x, t, Pow2(t));
    UnsignedIs(Signed(x, w), t);
  }

  // ----- Comparisons, and what is undefined -----

  lemma ExecuteLessOrEqual(x: nat, y: nat, w: nat)
    requires 0 < w <= 64 && x < Pow2(w) && y < Pow2(w)
    ensures Execute2(LessOrEqualUnsigned, Const(x, w), Const(y, w)) == Truth(x <= y)
    ensures w < 64 ==> Execute2(LessOrEqualSigned, Const(x, w), Const(y, w)) == Truth(Signed(x, w) <= Signed(y, w))
    ensures w == 64 ==> Execute2(LessOrEqualSigned, Const(x, w), Const(y, w)) == Truth(x <= y)
  {
    hide Low, Pow2, SignedLessOrEqual, Signed;
    LowOfSmall(x, w);
    LowOfSmall(y, w);
    if w < 64 { SignedOrderBelow64Bits(x, y, w); } else { SignedOrderOn64Bits(x, y); }
  }

  /** An operation on two constants has a value unless it divides by 0, selects beyond bit 63 or stores. */
  lemma UndefinedIff(op: BinaryOp, x: nat, y: nat, w: nat, size: nat)
    requires 0 < w <= 64 && x < Pow2(w) && y < Pow2(w) && (size == w || op.Select?)
    ensures Execute2(op, Const(x, w), Const(y, size)) == None <==>
            || ((op.DivideUnsigned? || op.DivideSigned? || op.Modulo?) && y == 0)
            || (op.Select? && op.offset + size >= 64)
            || op.Store?
  {
    hide Low, Pow2, SignedOperand, Signed, SignedLessOrEqual, Selected, TruncatedQuotient;
    LowOfSmall(y, w);
    SignedIs(y, w);
    SignedOperandReduced(y, w);
  }
}
