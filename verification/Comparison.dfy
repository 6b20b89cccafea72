/** CMP (amd64/src/semantic.rs:850-867). It uses the carry statements of SBB, which read the old CF. */
module Comparison {
  import opened Bits
  import opened Il
  import opened Rreil
  import opened Registers
  import opened Arithmetic

  // ----- The code generator -----

  function AdjustCode(res: Rvalue<Name>, a: Rvalue<Name>): seq<Stmt> {
    [Do2(LessUnsigned, To(Flag(AF), 1), Extract(a, 4), Extract(res, 4))]
  }

  /** `cmp`; `sub` writes `res` back as well. */
  function CompareCode(a: Rvalue<Name>, b: Rvalue<Name>, sz: nat): seq<Stmt>
    requires sz > 0
  {
    var res := Var(Temp(Res), sz);
    [Do2(Subtract, To(Temp(Res), sz), a, b)] + SignZeroCode(sz) + CarryCode(true, Cf1, Cf2, CF, res, a) +
    AdjustCode(res, a) + OverflowCode(true, res, a, b, sz) + ParityCode(res)
  }

  function Cmp(a: Rvalue<Name>, b: Rvalue<Name>): Option<seq<Stmt>> {
    match Extend(a, b, true)
    case None => None
    case Some(e) => Some(e.code + CompareCode(e.a, e.b, e.size))
  }

  // ----- What it does -----

  /** Every flag but CF. */
  ghost predicate OtherFlagsRight(st': Cpu, x: nat, y: nat, z: nat, w: nat)
    requires w > 0 && x < Pow2(w) && y < Pow2(w)
  {
    var signed := Signed(x, w) - Signed(y, w);
    && Get(st', Flag(AF)) == Bit(x % 16 < y % 16)
    && Get(st', Flag(OF)) == Bit(signed < -(Pow2(w - 1) as int) || signed >= Pow2(w - 1))
    && Get(st', Flag(SF)) == Bit(z >= Pow2(w - 1))
    && Get(st', Flag(ZF)) == Bit(z == 0)
    && Get(st', Flag(PF)) == Bit(Ones(z % 0x100, 8) % 2 == 0)
  }

  lemma ExecAdjust(st: Cpu, st': Cpu, a: Rvalue<Name>, x: nat, z: nat, w: nat)
    requires 8 <= w <= 64 && Reads(st, a, x, w) && Reads(st, Var(Temp(Res), w), z, w)
    requires st' == Exec(st, AdjustCode(Var(Temp(Res), w), a))
    ensures Computes(st, st', AF, Bit(x % 16 < z % 16))
  {
    hide Exec, Eval, Get, Pow2, Step, Extract, Set;
    var res := Var(Temp(Res), w);
    ExtractReads(st, res, z, w);
    ExtractReads(st, a, x, w);
    Exec1(st, Do2(LessUnsigned, To(Flag(AF), 1), Extract(a, 4), Extract(res, 4)));
    StepCompare(st, LessUnsigned, Flag(AF), Extract(a, 4), Extract(res, 4), x % 16, z % 16, 4, x % 16 < z % 16);
    SetSets(st, Flag(AF), Bit(x % 16 < z % 16));
  }

  /** The sum or difference without carry, sign and zero flags. */
  lemma ExecPlainSum(st: Cpu, s2: Cpu, sub: bool, a: Rvalue<Name>, b: Rvalue<Name>, x: nat, y: nat, z: nat, w: nat)
    requires 8 <= w <= 64 && Untouched(a) && Untouched(b) && Reads(st, a, x, w) && Reads(st, b, y, w)
    requires z == Wrapped(if sub then x - y else x + y, w) && z < Pow2(w)
    requires s2 == Exec(Exec(st, [Do2(if sub then Subtract else Add, To(Temp(Res), w), a, b)]), SignZeroCode(w))
    ensures CalculatedOnly(st, s2) && Get(s2, Flag(CF)) == Get(st, Flag(CF))
    ensures Get(s2, Flag(SF)) == Bit(z >= Pow2(w - 1)) && Get(s2, Flag(ZF)) == Bit(z == 0)
    ensures Reads(s2, a, x, w) && Reads(s2, b, y, w) && Reads(s2, Var(Temp(Res), w), z, w) && Get(s2, Temp(Res)) == z
  {
    hide Exec, Eval, Get, Pow2, Wrapped, Step, Set;
    var stmt := Do2(if sub then Subtract else Add, To(Temp(Res), w), a, b);
    Exec1(st, stmt);
    StepSum(st, sub, Temp(Res), a, b, x, y, w);
    SetSets(st, Temp(Res), z);
    var s1 := Step(st, stmt);
    ExecSignZero(s1, s2, z, w);
    ReadsAgain(st, s2, a, x, w);
    ReadsAgain(st, s2, b, y, w);
    ReadWhole(s2, Temp(Res), w);
  }

  /** Carry, adjust, overflow and parity flags. */
  lemma ExecCompareFlags(s2: Cpu, s6: Cpu, a: Rvalue<Name>, b: Rvalue<Name>, x: nat, y: nat, c: nat, z: nat, w: nat)
    requires 8 <= w <= 64 && Get(s2, Flag(CF)) == c < 2 && Get(s2, Temp(Res)) == z
    requires Reads(s2, a, x, w) && Reads(s2, b, y, w) && Reads(s2, Var(Temp(Res), w), z, w)
    requires var res := Var(Temp(Res), w);
             s6 == Exec(Exec(Exec(Exec(s2, CarryCode(true, Cf1, Cf2, CF, res, a)), AdjustCode(res, a)),
                             OverflowCode(true, res, a, b, w)), ParityCode(res))
    ensures CalculatedOnly(s2, s6) && Get(s6, Temp(Res)) == z
    ensures Get(s6, Flag(SF)) == Get(s2, Flag(SF)) && Get(s6, Flag(ZF)) == Get(s2, Flag(ZF))
    ensures Get(s6, Flag(CF)) == Bit((z == x && c == 1) || x < z) && Get(s6, Flag(AF)) == Bit(x % 16 < z % 16)
    ensures Get(s6, Flag(OF)) == OverflowBit(true, TopBit(x, w - 1), TopBit(y, w - 1), TopBit(z, w - 1))
    ensures Get(s6, Flag(PF)) == Bit(Ones(z % 0x100, 8) % 2 == 0)
  {
    hide Exec, Eval, Get, Pow2, TopBit, OverflowBit, Ones, CarryCode, AdjustCode, OverflowCode, ParityCode, Bit;
    var res := Var(Temp(Res), w);
    var s3 := Exec(s2, CarryCode(true, Cf1, Cf2, CF, res, a));
    ExecCarry(s2, s3, true, Cf1, Cf2, CF, res, a, z, x, w, c);
    ReadsAgain(s2, s3, res, z, w);
    ReadsAgain(s2, s3, a, x, w);
    var s4 := Exec(s3, AdjustCode(res, a));
    ExecAdjust(s3, s4, a, x, z, w);
    ReadsAgain(s2, s4, res, z, w);
    ReadsAgain(s2, s4, a, x, w);
    ReadsAgain(s2, s4, b, y, w);
    var s5 := Exec(s4, OverflowCode(true, res, a, b, w));
    ExecOverflow(s4, s5, true, res, a, b, z, x, y, w);
    ExecParity(s5, s6, z, w);
  }

  /** CF is set on a borrow, as it should be, but also on a zero operand with CF already set. */
  lemma CarryOfDifference(x: nat, y: nat, c: nat, z: nat, w: nat)
    requires x < Pow2(w) && y < Pow2(w) && c < 2 && z == Wrapped(x - y, w)
    ensures ((z == x && c == 1) || x < z) == (x < y || (y == 0 && c == 1))
  {
  }

  lemma AdjustOfDifference(x: nat, y: nat, z: nat, w: nat)
    requires 8 <= w && x < Pow2(w) && y < Pow2(w) && z == Wrapped(x - y, w)
    ensures x % 16 < z % 16 <==> x % 16 < y % 16
  {
    hide Pow2;
    LowNibble(true, x, y, 0, w);
    SmallPowers();
  }

  /** On operands of one width CMP leaves the registers alone and sets every flag but CF as section 3.4.3.1 of
    volume 1 of the Intel SDM asks. CF is the borrow exactly unless the second operand is 0 while CF is set. */
  lemma CompareEqual(st: Cpu, st': Cpu, a: Rvalue<Name>, b: Rvalue<Name>, x: nat, y: nat, c: nat, w: nat)
    requires 8 <= w <= 64 && Untouched(a) && Untouched(b) && Reads(st, a, x, w) && Reads(st, b, y, w)
    requires Get(st, Flag(CF)) == c < 2
    requires HasSize(a, w) && HasSize(b, w) && st' == Exec(st, Cmp(a, b).value)
    ensures var z := Wrapped(x - y, w);
            0 <= z < Pow2(w) && CalculatedOnly(st, st') && Get(st', Temp(Res)) == z && OtherFlagsRight(st', x, y, z, w)
    ensures Get(st', Flag(CF)) == Bit(x < y || (y == 0 && c == 1))
    ensures Get(st', Flag(CF)) == Bit(x < y) <==> !(y == 0 && c == 1)
  {
    hide Exec, Eval, Get, Pow2, TopBit, OverflowBit, Ones, CarryCode, AdjustCode, OverflowCode, ParityCode,
      SignZeroCode, Signed, Extend;
    var res := Var(Temp(Res), w);
    ExtendSame(a, b, true, w);
    assert [] + CompareCode(a, b, w) == CompareCode(a, b, w);
    TwoSteps(true, x, y, 0, w);
    OverflowIsSignedOverflow(true, x, y, 0, w);
    var z := Wrapped(x - y, w);
    var sub := [Do2(Subtract, To(Temp(Res), w), a, b)];
    Exec6(st, sub, SignZeroCode(w), CarryCode(true, Cf1, Cf2, CF, res, a), AdjustCode(res, a),
          OverflowCode(true, res, a, b, w), ParityCode(res));
    var s2 := Exec(Exec(st, sub), SignZeroCode(w));
    ExecPlainSum(st, s2, true, a, b, x, y, z, w);
    ExecCompareFlags(s2, st', a, b, x, y, c, z, w);
    CarryOfDifference(x, y, c, z, w);
    AdjustOfDifference(x, y, z, w);
  }
}
