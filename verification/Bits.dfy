/** Bit-level arithmetic on natural numbers. */
module Bits {

  function Pow2(n: nat): (r: nat)
    ensures r > 0
  {
    if n == 0 then 1 else 2 * Pow2(n - 1)
  }

  function Prod(a: nat, b: nat): nat {
    a * b
  }

  lemma NextPower(k: nat)
    ensures Pow2(k + 1) == 2 * Pow2(k)
  {
  }

  lemma {:induction false} PowMonotone(m: nat, n: nat)
    requires m <= n
    ensures Pow2(m) <= Pow2(n)
    decreases n
  {
    if m < n { PowMonotone(m, n - 1); }
  }

  lemma {:induction false} Pow2Add(m: nat, n: nat)
    ensures Pow2(m + n) == Pow2(m) * Pow2(n)
  {
    if m == 0 {
    } else {
      Pow2Add(m - 1, n);
      assert Pow2(m + n) == 2 * Pow2(m - 1 + n);
      assert 2 * (Pow2(m - 1) * Pow2(n)) == (2 * Pow2(m - 1)) * Pow2(n);
    }
  }

  /** `p` shifted left by `k` bits. */
  function Shl(p: nat, k: nat): nat {
    if k == 0 then p else 2 * Shl(p, k - 1)
  }

  /** `x` shifted right by `k` bits. */
  function Shr(x: nat, k: nat): nat
    decreases k, x
  {
    if k == 0 then x else Shr(x / 2, k - 1)
  }

  /** The `k` least significant bits of `x`. */
  function Low(x: nat, k: nat): (r: nat)
    ensures r < Pow2(k)
    decreases k, x
  {
    if k == 0 then 0 else x % 2 + 2 * Low(x / 2, k - 1)
  }

  lemma {:induction false} Reassemble(x: nat, k: nat)
    ensures x == Shl(Shr(x, k), k) + Low(x, k)
    decreases k
  {
    if k > 0 { Reassemble(x / 2, k - 1); }
  }

  lemma {:induction false} Disassemble(x: nat, p: nat, q: nat, k: nat)
    requires q < Pow2(k) && x == Shl(p, k) + q
    ensures Shr(x, k) == p && Low(x, k) == q
    decreases k
  {
    if k > 0 {
      Halves(x, p, q, k);
      Disassemble(x / 2, p, q / 2, k - 1);
    }
  }

  lemma LowOfSmall(x: nat, k: nat)
    requires x < Pow2(k)
    ensures Low(x, k) == x && Shr(x, k) == 0
  {
    ShlBit(k);
    Disassemble(x, 0, x, k);
  }

  /** A sum that overflows by at most one bit. */
  lemma LowOfSum(x: nat, k: nat)
    requires x < 2 * Pow2(k)
    ensures Low(x, k) == if x < Pow2(k) then x else x - Pow2(k)
  {
    ShlBit(k);
    if x < Pow2(k) { Disassemble(x, 0, x, k); } else { Disassemble(x, 1, x - Pow2(k), k); }
  }

  lemma {:induction false} ShlIsProduct(p: nat, k: nat)
    ensures Shl(p, k) == p * Pow2(k)
  {
    if k > 0 {
      ShlIsProduct(p, k - 1);
      assert 2 * (p * Pow2(k - 1)) == p * (2 * Pow2(k - 1));
    }
  }

  lemma {:induction false} ShlBit(k: nat)
    ensures Shl(0, k) == 0 && Shl(1, k) == Pow2(k)
  {
    if k > 0 { ShlBit(k - 1); }
  }

  lemma QuotientIs(x: int, m: nat, a: int, b: nat)
    requires m > 0 && b < m && x == a * m + b
    ensures x / m == a && x % m == b
  {
    var q, r := x / m, x % m;
    assert x == m * q + r && 0 <= r < m;
    Unique(m, q, r, a, b);
  }

  lemma Unique(m: nat, q: int, r: nat, a: int, b: nat)
    requires r < m && b < m && m * q + r == a * m + b
    ensures q == a && r == b
  {
    if q < a { Scaled(m, q, a); } else if q > a { Scaled(m, a, q); }
  }

  lemma Scaled(m: nat, q: int, a: int)
    requires q < a
    ensures m * q + m <= m * a
  {
    assert m * a == m * (q + 1) + m * (a - q - 1);
    assert m * (q + 1) == m * q + m;
    assert m * (a - q - 1) >= 0;
  }

  lemma LowIsRemainder(x: nat, k: nat, m: nat)
    requires m == Pow2(k)
    ensures Low(x, k) == x % m && Shr(x, k) == x / m
  {
    Reassemble(x, k);
    ShlIsProduct(Shr(x, k), k);
    QuotientIs(x, m, Shr(x, k), Low(x, k));
  }

  lemma SmallPowers()
    ensures Pow2(0) == 1 && Pow2(1) == 2 && Pow2(4) == 16
  {
  }

  /** The powers that occur as register and operand widths. */
  lemma Powers()
    ensures Pow2(0) == 1 && Pow2(1) == 2 && Pow2(4) == 16 && Pow2(8) == 0x100 && Pow2(16) == 0x1_0000
    ensures Pow2(32) == 0x1_0000_0000 && Pow2(48) == 0x1_0000_0000_0000 && Pow2(64) == 0x1_0000_0000_0000_0000
  {
    hide Pow2;
    SmallPowers();
    Pow2Add(4, 4);
    Pow2Add(8, 8);
    Pow2Add(16, 16);
    Pow2Add(32, 16);
    Pow2Add(32, 32);
  }

  datatype BitOp = AndBits | OrBits | XorBits

  /** The operation on single bits. */
  function OnBit(op: BitOp, a: nat, b: nat): (r: nat)
    ensures r <= 1
  {
    match op
    case AndBits => if a == 1 && b == 1 then 1 else 0
    case OrBits => if a == 1 || b == 1 then 1 else 0
    case XorBits => if a != b then 1 else 0
  }

  /** The operation on all bits of two numbers. */
  function Bitwise(op: BitOp, x: nat, y: nat): nat
    decreases x + y
  {
    if x == 0 && y == 0 then 0
    else OnBit(op, x % 2, y % 2) + 2 * Bitwise(op, x / 2, y / 2)
  }

  lemma BitwiseStep(op: BitOp, x: nat, y: nat)
    ensures Bitwise(op, x, y) == OnBit(op, x % 2, y % 2) + 2 * Bitwise(op, x / 2, y / 2)
  {
  }

  lemma BitwiseOfBits(op: BitOp, a: nat, b: nat)
    requires a <= 1 && b <= 1
    ensures Bitwise(op, a, b) == OnBit(op, a, b)
  {
    BitwiseStep(op, a, b);
  }

  lemma Halves(x: nat, p: nat, q: nat, k: nat)
    requires k > 0 && q < Pow2(k) && x == Shl(p, k) + q
    ensures x % 2 == q % 2 && x / 2 == Shl(p, k - 1) + q / 2 && q / 2 < Pow2(k - 1)
  {
    var h := Shl(p, k - 1);
    assert (2 * h + q) / 2 == h + q / 2;
  }

  /** Upper and lower parts are handled independently. */
  lemma {:induction false} BitwiseSplit(op: BitOp, x: nat, y: nat, p: nat, q: nat, r: nat, s: nat, k: nat)
    requires q < Pow2(k) && s < Pow2(k) && x == Shl(p, k) + q && y == Shl(r, k) + s
    ensures Bitwise(op, x, y) == Shl(Bitwise(op, p, r), k) + Bitwise(op, q, s)
    decreases k
  {
    if k == 0 {
      assert q == 0 && s == 0;
    } else {
      Halves(x, p, q, k);
      Halves(y, r, s, k);
      BitwiseStep(op, x, y);
      BitwiseStep(op, q, s);
      BitwiseSplit(op, x / 2, y / 2, p, q / 2, r, s / 2, k - 1);
    }
  }

  lemma {:induction false} BitwiseBound(op: BitOp, x: nat, y: nat, k: nat)
    requires x < Pow2(k) && y < Pow2(k)
    ensures Bitwise(op, x, y) < Pow2(k)
    decreases k
  {
    if k > 0 {
      BitwiseBound(op, x / 2, y / 2, k - 1);
      BitwiseStep(op, x, y);
    }
  }

  /** Bit `k` of a number below `Pow2(k + 1)`. */
  function TopBit(x: nat, k: nat): nat {
    if x >= Pow2(k) then 1 else 0
  }

  lemma TopBitIsShift(x: nat, k: nat)
    requires x < Pow2(k + 1)
    ensures Shr(x, k) == TopBit(x, k)
  {
    ShlBit(k);
    if x >= Pow2(k) { Disassemble(x, 1, x - Pow2(k), k); } else { Disassemble(x, 0, x, k); }
  }

  /** A number below `Pow2(k + 1)` without bit `k`. */
  function BelowTop(x: nat, k: nat): (r: nat)
    requires x < Pow2(k + 1)
    ensures r < Pow2(k) && x == Shl(TopBit(x, k), k) + r
  {
    ShlBit(k);
    if x >= Pow2(k) then x - Pow2(k) else x
  }

  lemma TopOfSum(x: nat, t: nat, q: nat, k: nat)
    requires t <= 1 && q < Pow2(k) && x == Shl(t, k) + q
    ensures TopBit(x, k) == t && x < Pow2(k + 1)
  {
    hide Shl;
    ShlBit(k);
    if t == 0 { assert x == q; } else { assert x == Pow2(k) + q; }
  }

  /** The operation acts on the top bits alone. */
  lemma BitwiseTop(op: BitOp, x: nat, y: nat, k: nat)
    requires x < Pow2(k + 1) && y < Pow2(k + 1)
    ensures TopBit(Bitwise(op, x, y), k) == OnBit(op, TopBit(x, k), TopBit(y, k))
    ensures Bitwise(op, x, y) < Pow2(k + 1)
  {
    hide Bitwise, Shl, OnBit, Pow2, BelowTop;
    var p, q, r, s := TopBit(x, k), BelowTop(x, k), TopBit(y, k), BelowTop(y, k);
    BitwiseSplit(op, x, y, p, q, r, s, k);
    BitwiseOfBits(op, p, r);
    BitwiseBound(op, q, s, k);
    TopOfSum(Bitwise(op, x, y), OnBit(op, p, r), Bitwise(op, q, s), k);
  }

  lemma {:induction false} AndZero(x: nat)
    ensures Bitwise(AndBits, x, 0) == 0
  {
    if x > 0 {
      BitwiseStep(AndBits, x, 0);
      AndZero(x / 2);
    }
  }

  lemma {:induction false} AndOnes(x: nat, k: nat)
    requires x < Pow2(k)
    ensures Bitwise(AndBits, x, Pow2(k) - 1) == x
    decreases k
  {
    if k > 0 {
      BitwiseStep(AndBits, x, Pow2(k) - 1);
      assert (Pow2(k) - 1) % 2 == 1 && (Pow2(k) - 1) / 2 == Pow2(k - 1) - 1;
      AndOnes(x / 2, k - 1);
    }
  }

  lemma {:induction false} OrZero(x: nat)
    ensures Bitwise(OrBits, x, 0) == x && Bitwise(OrBits, 0, x) == x
  {
    if x > 0 {
      BitwiseStep(OrBits, x, 0);
      BitwiseStep(OrBits, 0, x);
      OrZero(x / 2);
    }
  }

  /** Xor with all ones flips the top bit. */
  lemma {:induction false} XorOnesBound(x: nat, k: nat)
    requires x < Pow2(k)
    ensures Bitwise(XorBits, x, Pow2(k) - 1) == Pow2(k) - 1 - x
    decreases k
  {
    if k > 0 {
      BitwiseStep(XorBits, x, Pow2(k) - 1);
      assert (Pow2(k) - 1) % 2 == 1 && (Pow2(k) - 1) / 2 == Pow2(k - 1) - 1;
      XorOnesBound(x / 2, k - 1);
    }
  }

  /** Clearing a field below `top` with a mask of zeros. */
  lemma ClearField(x: nat, mask: nat, top: nat, field: nat, n: nat, rest: nat)
    requires field < Pow2(n) && top < Pow2(rest)
    requires x == Shl(top, n) + field && mask == Shl(Pow2(rest) - 1, n)
    ensures Bitwise(AndBits, x, mask) == Shl(top, n)
  {
    BitwiseSplit(AndBits, x, mask, top, field, Pow2(rest) - 1, 0, n);
    AndOnes(top, rest);
    AndZero(field);
  }

  /** Or-ing a value into a cleared field. */
  lemma FillField(x: nat, top: nat, v: nat, n: nat)
    requires v < Pow2(n) && x == Shl(top, n)
    ensures Bitwise(OrBits, x, v) == Shl(top, n) + v
  {
    ShlBit(n);
    BitwiseSplit(OrBits, x, v, top, 0, 0, v, n);
    OrZero(top);
    OrZero(v);
  }

  /** Clearing the `n` bits from `lo` on with a mask and or-ing in `v` replaces that field. */
  lemma ReplaceField(x: nat, mask: nat, w: nat, top: nat, field: nat, low: nat, v: nat, lo: nat, n: nat, rest: nat)
    requires low < Pow2(lo) && field < Pow2(n) && v < Pow2(n) && top < Pow2(rest)
    requires x == Shl(Shl(top, n) + field, lo) + low
    requires mask == Shl(Shl(Pow2(rest) - 1, n), lo) + (Pow2(lo) - 1)
    requires w == Shl(v, lo)
    ensures Bitwise(OrBits, Bitwise(AndBits, x, mask), w) == Shl(Shl(top, n) + v, lo) + low
  {
    hide Bitwise, Shl, Pow2;
    var hi, hiMask := Shl(top, n) + field, Shl(Pow2(rest) - 1, n);
    BitwiseSplit(AndBits, x, mask, hi, low, hiMask, Pow2(lo) - 1, lo);
    ClearField(hi, hiMask, top, field, n, rest);
    AndOnes(low, lo);
    var cleared := Bitwise(AndBits, x, mask);
    BitwiseSplit(OrBits, cleared, w, Shl(top, n), low, v, 0, lo);
    FillField(Shl(top, n), top, v, n);
    OrZero(low);
  }
}
