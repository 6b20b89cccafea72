/** ADD and SUB (amd64/src/semantic.rs:551-571, 979-998), and chains that start with them. */
module Plain {
  import opened Bits
  import opened Il
  import opened Rreil
  import opened Registers
  import opened Arithmetic
  import opened Comparison
  import opened WideWrites
  import opened Widths
  import opened MultiLimb

  // ----- The code generator -----

  /** `set_adj_flag`. */
  function AddAdjustCode(res: Rvalue<Name>, a: Rvalue<Name>): seq<Stmt> {
    [Do2(LessUnsigned, To(Flag(AF), 1), Extract(res, 4), Extract(a, 4)),
     Do2(And, To(Temp(Af1), 1), Var(Temp(Af1), 1), Var(Flag(AF), 1))]
  }

  function AddCode(a: Rvalue<Name>, b: Rvalue<Name>, sz: nat): seq<Stmt>
    requires sz > 0
  {
    var res := Var(Temp(Res), sz);
    [Do2(Add, To(Temp(Res), sz), a, b)] + SignZeroCode(sz) + [Do2(LessUnsigned, To(Flag(CF), 1), res, a)] +
    AddAdjustCode(res, a) + OverflowCode(false, res, a, b, sz) + ParityCode(res)
  }

  /** `sub` computes what `cmp` computes. */
  function PlainCode(sub: bool, a: Rvalue<Name>, b: Rvalue<Name>, sz: nat): seq<Stmt>
    requires sz > 0
  {
    if sub then CompareCode(a, b, sz) else AddCode(a, b, sz)
  }

  /** `add` and `sub`. */
  function Instruction(sub: bool, a: Rvalue<Name>, b: Rvalue<Name>): Option<seq<Stmt>> {
    match Extend(a, b, true)
    case None => None
    case Some(e) =>
      match WriteReg(a, Var(Temp(Res), e.size))
      case None => None
      case Some(write) => Some(e.code + PlainCode(sub, e.a, e.b, e.size) + write)
  }

  /** The statements for a register, or none at all if the instruction cannot be generated. */
  function PlainOf(sub: bool, f: Family, d: Part, b: Rvalue<Name>): seq<Stmt> {
    match Instruction(sub, Var(Reg(f, d), Size(d)), b) case Some(code) => code case None => []
  }

  // ----- The flags of ADD -----

  lemma ExecBelow(st: Cpu, st': Cpu, flag: FlagName, p: Rvalue<Name>, q: Rvalue<Name>, u: nat, v: nat, w: nat)
    requires w <= 64 && Reads(st, p, u, w) && Reads(st, q, v, w)
    requires st' == Exec(st, [Do2(LessUnsigned, To(Flag(flag), 1), p, q)])
    ensures Computes(st, st', flag, Bit(u < v))
  {
    hide Exec, Eval, Get, Pow2, Step, Set;
    Exec1(st, Do2(LessUnsigned, To(Flag(flag), 1), p, q));
    StepCompare(st, LessUnsigned, Flag(flag), p, q, u, v, w, u < v);
    SetSets(st, Flag(flag), Bit(u < v));
  }

  lemma StepToTemp(st: Cpu, t: TempName, op: BinaryOp, a: Rvalue<Name>, b: Rvalue<Name>, w: nat)
    requires !op.Store?
    ensures var st' := Step(st, Do2(op, To(Temp(t), w), a, b));
            st'.mem == st.mem && st'.junk == st.junk && forall n :: n != Temp(t) ==> Get(st', n) == Get(st, n)
  {
    hide Eval, Execute2, Low;
  }

  lemma ExecAddAdjust(st: Cpu, st': Cpu, a: Rvalue<Name>, x: nat, z: nat, w: nat)
    requires 8 <= w <= 64 && Reads(st, a, x, w) && Reads(st, Var(Temp(Res), w), z, w)
    requires st' == Exec(st, AddAdjustCode(Var(Temp(Res), w), a))
    ensures Computes(st, st', AF, Bit(z % 16 < x % 16))
  {
    hide Exec, Eval, Get, Pow2, Step, Extract;
    var res := Var(Temp(Res), w);
    var less := Do2(LessUnsigned, To(Flag(AF), 1), Extract(res, 4), Extract(a, 4));
    var rest := Do2(And, To(Temp(Af1), 1), Var(Temp(Af1), 1), Var(Flag(AF), 1));
    ExtractReads(st, res, z, w);
    ExtractReads(st, a, x, w);
    Exec2(st, less, rest);
    Exec1(st, less);
    ExecBelow(st, Step(st, less), AF, Extract(res, 4), Extract(a, 4), z % 16, x % 16, 4);
    StepToTemp(Step(st, less), Af1, And, Var(Temp(Af1), 1), Var(Flag(AF), 1), 1);
  }

  /** Carry, adjust, overflow and parity flags of ADD. */
  lemma ExecAddFlags(s2: Cpu, s6: Cpu, a: Rvalue<Name>, b: Rvalue<Name>, x: nat, y: nat, z: nat, w: nat)
    requires 8 <= w <= 64 && Get(s2, Temp(Res)) == z
    requires Reads(s2, a, x, w) && Reads(s2, b, y, w) && Reads(s2, Var(Temp(Res), w), z, w)
    requires var res := Var(Temp(Res), w);
             s6 == Exec(Exec(Exec(Exec(s2, [Do2(LessUnsigned, To(Flag(CF), 1), res, a)]), AddAdjustCode(res, a)),
                             OverflowCode(false, res, a, b, w)), ParityCode(res))
    ensures CalculatedOnly(s2, s6) && Get(s6, Temp(Res)) == z
    ensures Get(s6, Flag(SF)) == Get(s2, Flag(SF)) && Get(s6, Flag(ZF)) == Get(s2, Flag(ZF))
    ensures Get(s6, Flag(CF)) == Bit(z < x) && Get(s6, Flag(AF)) == Bit(z % 16 < x % 16)
    ensures Get(s6, Flag(OF)) == OverflowBit(false, TopBit(x, w - 1), TopBit(y, w - 1), TopBit(z, w - 1))
    ensures Get(s6, Flag(PF)) == Bit(Ones(z % 0x100, 8) % 2 == 0)
  {
    hide Exec, Eval, Get, Pow2, TopBit, OverflowBit, Ones, AddAdjustCode, OverflowCode, ParityCode, Bit;
    var res := Var(Temp(Res), w);
    var s3 := Exec(s2, [Do2(LessUnsigned, To(Flag(CF), 1), res, a)]);
    ExecBelow(s2, s3, CF, res, a, z, x, w);
    ReadsAgain(s2, s3, res, z, w);
    ReadsAgain(s2, s3, a, x, w);
    var s4 := Exec(s3, AddAdjustCode(res, a));
    ExecAddAdjust(s3, s4, a, x, z, w);
    ReadsAgain(s2, s4, res, z, w);
    ReadsAgain(s2, s4, a, x, w);
    ReadsAgain(s2, s4, b, y, w);
    var s5 := Exec(s4, OverflowCode(false, res, a, b, w));
    ExecOverflow(s4, s5, false, res, a, b, z, x, y, w);
    ExecParity(s5, s6, z, w);
  }

  lemma ExecAdd(st: Cpu, st': Cpu, a: Rvalue<Name>, b: Rvalue<Name>, x: nat, y: nat, w: nat)
    requires 8 <= w <= 64 && Untouched(a) && Untouched(b) && Reads(st, a, x, w) && Reads(st, b, y, w)
    requires st' == Exec(st, AddCode(a, b, w))
    ensures var z := Wrapped(x + y, w);
            && 0 <= z < Pow2(w) && CalculatedOnly(st, st') && Get(st', Temp(Res)) == z
            && FlagsRight(st', false, x, y, 0, z, w)
  {
    hide Exec, Eval, Get, Pow2, TopBit, OverflowBit, Ones, AddAdjustCode, OverflowCode, ParityCode, SignZeroCode,
      Signed;
    var res := Var(Temp(Res), w);
    TwoSteps(false, x, y, 0, w);
    OverflowIsSignedOverflow(false, x, y, 0, w);
    var z := Wrapped(x + y, w);
    var sum, less := [Do2(Add, To(Temp(Res), w), a, b)], [Do2(LessUnsigned, To(Flag(CF), 1), res, a)];
    Exec6(st, sum, SignZeroCode(w), less, AddAdjustCode(res, a), OverflowCode(false, res, a, b, w), ParityCode(res));
    var s2 := Exec(Exec(st, sum), SignZeroCode(w));
    ExecPlainSum(st, s2, false, a, b, x, y, z, w);
    ExecAddFlags(s2, st', a, b, x, y, z, w);
    CarryIsOutOfRange(false, x, y, 0, w);
    LowNibble(false, x, y, 0, w);
    SmallPowers();
    CarryIsOutOfRange(false, x % 16, y % 16, 0, 4);
  }

  // ----- The whole instructions -----

  /** The flags other than CF, for the result without carry. */
  ghost predicate FlagsButCarry(st': Cpu, sub: bool, x: nat, y: nat, z: nat, w: nat)
    requires w > 0 && x < Pow2(w) && y < Pow2(w)
  {
    var signed := if sub then Signed(x, w) - Signed(y, w) else Signed(x, w) + Signed(y, w);
    && Get(st', Flag(AF)) == Bit(!(0 <= Exact(sub, x % 16, y % 16, 0) < 16))
    && Get(st', Flag(OF)) == Bit(signed < -(Pow2(w - 1) as int) || signed >= Pow2(w - 1))
    && Get(st', Flag(SF)) == Bit(z >= Pow2(w - 1))
    && Get(st', Flag(ZF)) == Bit(z == 0)
    && Get(st', Flag(PF)) == Bit(Ones(z % 0x100, 8) % 2 == 0)
  }

  /** CF afterwards: the carry of ADD; the borrow of SUB, or a set CF that a zero operand lets through. */
  function PlainCarry(sub: bool, x: nat, y: nat, c: nat, w: nat): nat {
    Bit(if sub then x < y || (y == 0 && c == 1) else x + y >= Pow2(w))
  }

  lemma ExecPlain(st: Cpu, st': Cpu, sub: bool, a: Rvalue<Name>, b: Rvalue<Name>, x: nat, y: nat, c: nat, w: nat)
    requires 8 <= w <= 64 && Untouched(a) && Untouched(b) && Reads(st, a, x, w) && Reads(st, b, y, w)
    requires HasSize(a, w) && HasSize(b, w) && Get(st, Flag(CF)) == c < 2 && st' == Exec(st, PlainCode(sub, a, b, w))
    ensures var z := Wrapped(Exact(sub, x, y, 0), w);
            && 0 <= z < Pow2(w) && CalculatedOnly(st, st') && Get(st', Temp(Res)) == z
            && Get(st', Flag(CF)) == PlainCarry(sub, x, y, c, w) && FlagsButCarry(st', sub, x, y, z, w)
  {
    hide Exec, Eval, Get, Pow2, AddCode, CompareCode, Ones, Signed, Reads, CalculatedOnly, Extend;
    assert x < Pow2(w) && y < Pow2(w) by { ReadsBound(st, a, x, w); ReadsBound(st, b, y, w); }
    if sub {
      ExtendSame(a, b, true, w);
      assert [] + CompareCode(a, b, w) == CompareCode(a, b, w);
      CompareEqual(st, st', a, b, x, y, c, w);
    } else {
      ExecAdd(st, st', a, b, x, y, w);
    }
  }

  lemma InstructionIs(sub: bool, f: Family, d: Part, b: Rvalue<Name>, e: Extension, write: Option<seq<Stmt>>)
    requires Extend(Var(Reg(f, d), Size(d)), b, true) == Some(e) && write.Some?
    requires write == WriteReg(Var(Reg(f, d), Size(d)), Var(Temp(Res), e.size))
    ensures PlainOf(sub, f, d, b) == e.code + PlainCode(sub, e.a, e.b, e.size) + write.value
  {
    hide WriteReg, PlainCode, Extend;
  }

  lemma ButCarryKept(st1: Cpu, st': Cpu, f: Family, sub: bool, x: nat, y: nat, z: nat, w: nat)
    requires w > 0 && x < Pow2(w) && y < Pow2(w) && FlagsButCarry(st1, sub, x, y, z, w) && OnlyFamily(st1, st', f)
    ensures FlagsButCarry(st', sub, x, y, z, w) && Get(st', Flag(CF)) == Get(st1, Flag(CF))
  {
    hide Get, Pow2, Signed, Exact, Ones;
  }

  lemma FrameThrough(st: Cpu, st0: Cpu, st1: Cpu, st': Cpu, f: Family)
    requires st0.mem == st.mem && forall n: Name :: !n.Extended? ==> Get(st0, n) == Get(st, n)
    requires CalculatedOnly(st0, st1) && OnlyFamily(st1, st', f)
    ensures OnlyResult(st, st', f)
  {
    hide Get;
  }

  /** ADD and SUB on any register and an operand of any width: the operands used, at the common width, give the
    result, all flags but CF as section 3.4.3.1 of volume 1 of the Intel SDM asks for them, and CF as `PlainCarry`;
    the result goes to the register as `Wrote` says, and nothing else changes. */
  lemma PlainCorrect(st: Cpu, sub: bool, f: Family, d: Part, b: Rvalue<Name>, w: nat, x: nat, c: nat, st': Cpu)
    requires Exists(f, d) && Coherent(st, f) && Steady(b) && Second(b, w, Size(d))
    requires x == Get(st, Reg(f, d)) && c == Get(st, Flag(CF)) < 2 && st' == Exec(st, PlainOf(sub, f, d, b))
    ensures x < Pow2(Size(d))
    ensures var s := Wider(Size(d), w);
            var x', y := FirstUsed(x, Size(d), w), Used(st, b, Size(d), x);
            var z := Wrapped(Exact(sub, x', y, 0), s);
            && x' < Pow2(s) && y < Pow2(s) && 0 <= z < Pow2(s) && z < Bound(R64)
            && Get(st', Flag(CF)) == PlainCarry(sub, x', y, c, s) && FlagsButCarry(st', sub, x', y, z, s)
            && Wrote(st', f, d, R(st, f), z)
    ensures OnlyResult(st, st', f)
  {
    hide Exec, Eval, Get, Pow2, PlainOf, PlainCode, FlagsButCarry, Coherent, Exact, Wrapped, Extend, Used, FirstUsed,
      Low, WriteReg, Reads, CalculatedOnly, OnlyFamily, OnlyResult, Steady, PlainCarry, Wrote, Untouched;
    var a, s := Var(Reg(f, d), Size(d)), Wider(Size(d), w);
    RegisterReads(st, f, d);
    ExtendSucceeds(a, b, w, Size(d));
    var e := Extend(a, b, true).value;
    var st0 := Exec(st, e.code);
    ExecExtend(st, a, b, x, w, Size(d), e, st0);
    var x', y := FirstUsed(x, Size(d), w), Used(st, b, Size(d), x);
    ReadsBound(st0, e.a, x', s);
    ReadsBound(st0, e.b, y, s);
    CoherentThrough(st, st0, f);
    var code, write := PlainCode(sub, e.a, e.b, s), WriteReg(a, Var(Temp(Res), s));
    WriteSucceeds(a, Var(Temp(Res), s));
    InstructionIs(sub, f, d, b, e, write);
    ExecAppend(st, e.code + code, write.value);
    ExecAppend(st, e.code, code);
    var st1 := Exec(st0, code);
    ExecPlain(st0, st1, sub, e.a, e.b, x', y, c, s);
    var z := Get(st1, Temp(Res));
    ReadWhole(st1, Temp(Res), s);
    CoherentAgain(st0, st1, f);
    WriteAny(st1, f, d, Var(Temp(Res), s), z, s);
    ButCarryKept(st1, st', f, sub, x', y, z, s);
    FrameThrough(st, st0, st1, st', f);
  }

  /** ADD and SUB leave register and family right iff: the second operand is not wider and `extend` is right, or
    it is wider and the bits of the result that do not fit are absorbed. */
  lemma PlainRightIff(st: Cpu, sub: bool, f: Family, d: Part, b: Rvalue<Name>, w: nat, x: nat, c: nat, st': Cpu)
    requires Exists(f, d) && Coherent(st, f) && Steady(b) && Second(b, w, Size(d))
    requires x == Get(st, Reg(f, d)) && c == Get(st, Flag(CF)) < 2 && st' == Exec(st, PlainOf(sub, f, d, b))
    ensures x < Pow2(Size(d)) && Eval(st, b).value < Pow2(w)
    ensures var k := Size(d);
            var z := Wrapped(Exact(sub, FirstUsed(x, k, w), Used(st, b, k, x), 0), Wider(k, w));
            0 <= z && (WroteRight(st', f, d, R(st, f), Intended(sub, x, Eval(st, b).value, 0, w, k))
                       <==> if w <= k then ExtendsRight(st, b, w, k, x) else Absorbed(d, R(st, f), z))
  {
    hide Exec, Eval, Get, Pow2, PlainOf, FlagsButCarry, Coherent, SignExtended, ExtendsRight, OnlyResult, Low, Absorbed,
      Wrote, Written, Exact, Wrapped;
    var k, s, r, v := Size(d), Wider(Size(d), w), R(st, f), Eval(st, b).value;
    PlainCorrect(st, sub, f, d, b, w, x, c, st');
    ValueFits(st, b, w);
    RegisterBound(st, f);
    var z := Wrapped(Exact(sub, FirstUsed(x, k, w), Used(st, b, k, x), 0), s);
    WroteRightIff(st', f, d, r, z);
    if w <= k {
      BoundIsPower(d);
      NarrowRightIff(st, st', sub, f, d, b, w, x, 0, r, z);
    } else {
      UsedWide(st, b, k, x, w);
      WideDestinationRight(st', sub, f, d, x, v, 0, s, r, z);
    }
  }

  /** The same for ADD, SUB and CMP, where CF is what it is at width `k`. */
  ghost predicate PlainWideFlags(st': Cpu, sub: bool, x: nat, y: nat, c: nat, k: nat, z: int)
    requires k > 0 && x < Pow2(k) && y < Pow2(k)
  {
    var t := SignedExact(sub, x, y, 0, k);
    && Get(st', Flag(CF)) == PlainCarry(sub, x, y, c, k)
    && Get(st', Flag(AF)) == Bit(!(0 <= Exact(sub, x % 16, y % 16, 0) < 16))
    && z >= 0 && Get(st', Flag(PF)) == Bit(Ones(z % 0x100, 8) % 2 == 0)
    && (Get(st', Flag(SF)) == Bit(z >= Pow2(k - 1)) <==> InRange(t, k))
    && (Get(st', Flag(OF)) == Bit(!InRange(t, k)) <==> InRange(t, k))
    && (Get(st', Flag(ZF)) == Bit(z == 0) <==> t != -(Pow2(k) as int))
  }

  lemma PlainWideFlagsIff(st': Cpu, sub: bool, x: nat, y: nat, c: nat, k: nat, s: nat, z': nat, z: nat)
    requires 8 <= k < s <= 64 && x < Pow2(k) && y < Pow2(k) && c < 2
    requires SignExtended(x, k, s) < Pow2(s) && SignExtended(y, k, s) < Pow2(s)
    requires z' == Wrapped(Exact(sub, SignExtended(x, k, s), SignExtended(y, k, s), 0), s)
    requires z == Wrapped(Exact(sub, x, y, 0), k)
    requires Get(st', Flag(CF)) == PlainCarry(sub, SignExtended(x, k, s), SignExtended(y, k, s), c, s)
    requires FlagsButCarry(st', sub, SignExtended(x, k, s), SignExtended(y, k, s), z', s)
    ensures PlainWideFlags(st', sub, x, y, c, k, z)
  {
    hide SignExtended, Pow2, Get, Wrapped, Signed, Ones;
    CarrySame(sub, x, y, 0, k, s);
    SignFlagsIff(sub, x, y, 0, k, s, z', z);
    NibbleSame(x, k, s);
    NibbleSame(y, k, s);
    ByteSame(sub, x, y, 0, k, s, z', z);
  }

  /** ADD and SUB with an operand that is wider than the register and the sign extension of `y`. */
  lemma PlainExtended(st: Cpu, sub: bool, f: Family, d: Part, b: Rvalue<Name>, w: nat, x: nat, y: nat, c: nat,
                      st': Cpu)
    requires Exists(f, d) && Coherent(st, f) && Steady(b) && Second(b, w, Size(d)) && Size(d) < w
    requires y < Pow2(Size(d)) && Eval(st, b).value == SignExtended(y, Size(d), w)
    requires x == Get(st, Reg(f, d)) && c == Get(st, Flag(CF)) < 2 && st' == Exec(st, PlainOf(sub, f, d, b))
    ensures x < Pow2(Size(d)) && Get(st', Reg(f, d)) == Wrapped(Exact(sub, x, y, 0), Size(d))
    ensures PlainWideFlags(st', sub, x, y, c, Size(d), Wrapped(Exact(sub, x, y, 0), Size(d)))
  {
    hide Exec, Eval, Get, Pow2, PlainOf, FlagsButCarry, Coherent, SignExtended, OnlyResult, Low, Wrote, Exact, Wrapped,
      PlainCarry, PlainWideFlags;
    var k := Size(d);
    PlainCorrect(st, sub, f, d, b, w, x, c, st');
    UsedWide(st, b, k, x, w);
    RegisterBound(st, f);
    var z' := Wrapped(Exact(sub, SignExtended(x, k, w), SignExtended(y, k, w), 0), w);
    WideDestinationRight(st', sub, f, d, x, SignExtended(y, k, w), 0, w, R(st, f), z');
    LowOfExtension(y, k, w);
    PlainWideFlagsIff(st', sub, x, y, c, k, w, z', Wrapped(Exact(sub, x, y, 0), k));
  }

  /** CMP with a second operand that is wider than the first and the sign extension of `y`. */
  lemma CompareExtended(st: Cpu, st': Cpu, a: Rvalue<Name>, b: Rvalue<Name>, x: nat, y: nat, c: nat, w: nat, k: nat)
    requires 8 <= k < w && Steady(a) && Steady(b) && First(a, k, w) && Second(b, w, k) && Reads(st, a, x, k)
    requires y < Pow2(k) && Eval(st, b).value == SignExtended(y, k, w)
    requires Get(st, Flag(CF)) == c < 2 && Cmp(a, b).Some? && st' == Exec(st, Cmp(a, b).value)
    ensures x < Pow2(k) && PlainWideFlags(st', true, x, y, c, k, Wrapped(x - y, k))
  {
    hide Exec, Eval, Get, Pow2, Cmp, OtherFlagsRight, FlagsButCarry, SignExtended, Wrapped, Reads, PlainWideFlags;
    CompareCorrect(st, st', a, b, x, c, w, k);
    UsedWide(st, b, k, x, w);
    var x', y' := SignExtended(x, k, w), SignExtended(y, k, w);
    var z' := Wrapped(Exact(true, x', y', 0), w);
    CompareFlagsArePlain(st', x', y', z', w);
    WrapRange(true, x, y, 0, k);
    PlainWideFlagsIff(st', true, x, y, c, k, w, z', Wrapped(x - y, k));
  }

  /** What CMP leaves is what `PlainWideFlagsIff` asks for. */
  lemma CompareFlagsArePlain(st': Cpu, x: nat, y: nat, z: nat, s: nat)
    requires s > 0 && x < Pow2(s) && y < Pow2(s) && OtherFlagsRight(st', x, y, z, s)
    ensures FlagsButCarry(st', true, x, y, z, s)
  {
    hide Pow2, Get, Signed, Ones;
  }

  /** add al, 0 with a 32-bit immediate and RAX = 0xff: the sign of AL spills over the register, and AH no longer
    belongs to it. */
  lemma AddAlZero(st: Cpu, st': Cpu)
    requires Coherent(st, A) && R(st, A) == 0xff && Get(st, Flag(CF)) < 2
    requires st' == Exec(st, PlainOf(false, A, L8, Imm(0, 32)))
    ensures Get(st', Reg(A, L8)) == 0xff && Get(st', Reg(A, H8)) == 0 && Get(st', Reg(A, X16)) == 0xffff
    ensures R(st', A) == 0xffff_ffff && !Coherent(st', A)
  {
    hide Exec, Get, PlainOf, Merged, PartOf, Coherent, Wrote;
    AddAlZeroRuns(st, st');
    ByteSpills(0xff, 0xffff_ffff);
    SlicesOf32();
    NamesOf(st', 0xff, 0xffff_ffff);
  }

  lemma NamesOf(st: Cpu, r: nat, z: nat)
    requires Wrote(st, A, L8, r, z)
    ensures var m := Merged(L8, r, z);
            && Get(st, Reg(A, L8)) == PartOf(L8, m) && Get(st, Reg(A, X16)) == PartOf(X16, m)
            && Get(st, Reg(A, H8)) == PartOf(H8, r) && R(st, A) == PartOf(R64, m)
            && (PartOf(H8, r) != PartOf(H8, R(st, A)) ==> !Coherent(st, A))
  {
    hide Get, Merged, PartOf;
    assert Exists(A, L8) && Exists(A, H8) && Exists(A, X16) && Exists(A, R64);
  }

  lemma SlicesOf32()
    ensures PartOf(L8, 0xffff_ffff) == 0xff && PartOf(H8, 0xffff_ffff) == 0xff && PartOf(X16, 0xffff_ffff) == 0xffff
    ensures PartOf(H8, 0xff) == 0 && PartOf(R64, 0xffff_ffff) == 0xffff_ffff && PartOf(L8, 0xff) == 0xff
  {
  }

  lemma ByteSpills(r: nat, z: nat)
    requires r < 0x100 && z < Bound(R64)
    ensures Merged(L8, r, z) == z
  {
    hide Bitwise;
    QuotientIs(r, 0x100, 0, r);
    OrZero(z);
  }

  lemma AddAlZeroRuns(st: Cpu, st': Cpu)
    requires Coherent(st, A) && R(st, A) == 0xff && Get(st, Flag(CF)) < 2
    requires st' == Exec(st, PlainOf(false, A, L8, Imm(0, 32)))
    ensures Wrote(st', A, L8, 0xff, 0xffff_ffff)
  {
    hide Exec, Get, PlainOf, Coherent, FlagsButCarry, OnlyResult, Low, Pow2, Wrote, SignExtended, Wrapped, Exact,
      PlainCarry, R;
    Powers();
    LowSlice(st, 0xff);
    SpillValue();
    PlainCorrect(st, false, A, L8, Imm(0, 32), 32, 0xff, Get(st, Flag(CF)), st');
  }

  lemma LowSlice(st: Cpu, r: nat)
    requires Coherent(st, A) && R(st, A) == r < 0x100
    ensures Get(st, Reg(A, L8)) == r
  {
    hide Get;
    assert Exists(A, L8);
    QuotientIs(r, 0x100, 0, r);
  }

  lemma SpillValue()
    ensures 0xff < Pow2(8) && SignExtended(0xff, 8, 32) == 0xffff_ffff && Low(0, 32) == 0
    ensures Wrapped(Exact(false, 0xffff_ffff, 0, 0), 32) == 0xffff_ffff
  {
    hide Pow2, SignExtended, Low;
    Powers();
    NextPower(7);
    SignKept(0xff, 8, 32);
    LowOfSmall(0, 32);
  }

  /** add al, 1 with a 32-bit immediate and AL = 0x7f: AL becomes 0x80, but SF and OF are clear. */
  lemma AddAlOne(st: Cpu, st': Cpu)
    requires Coherent(st, A) && R(st, A) == 0x7f && Get(st, Flag(CF)) < 2
    requires st' == Exec(st, PlainOf(false, A, L8, Imm(1, 32)))
    ensures Get(st', Reg(A, L8)) == 0x80 && Get(st', Flag(SF)) == 0 && Get(st', Flag(OF)) == 0
  {
    hide Exec, Get, PlainOf, Coherent, OnlyResult, Low, Pow2, SignExtended, Wrapped, Exact, PlainCarry, R, Signed,
      NameAfter;
    Powers();
    LowSlice(st, 0x7f);
    OneValue();
    PlainCorrect(st, false, A, L8, Imm(1, 32), 32, 0x7f, Get(st, Flag(CF)), st');
    DestinationRight(L8, 0x7f, 0x80);
    assert Exists(A, L8);
  }

  lemma OneValue()
    ensures 0x7f < Pow2(8) && SignExtended(0x7f, 8, 32) == 0x7f && Low(1, 32) == 1
    ensures Wrapped(Exact(false, 0x7f, 1, 0), 32) == 0x80 && 0x80 < Pow2(31)
    ensures 0x7f < Pow2(32) && Signed(0x7f, 32) == 0x7f && Signed(1, 32) == 1
  {
    hide Pow2, SignExtended, Low;
    Powers();
    NextPower(7);
    NextPower(31);
    SignKept(0x7f, 8, 32);
    LowOfSmall(1, 32);
  }

  // ----- Chains that start with ADD or SUB -----

  /** The first limb, in the state it meets. */
  function FirstAfter(sub: bool, r: Round): Cpu {
    Exec(r.before, PlainOf(sub, r.f, r.d, r.b))
  }

  /** The first limb's equation with the CF it leaves, which is the carry unless SUB lets a set CF through. */
  lemma FirstLimb(sub: bool, r: Round, w: nat, c: nat)
    requires r.Operands(w) && Coherent(r.before, r.f) && Carry(r.before) == c < 2
    ensures r.X() < Pow2(w) && r.Y() < Pow2(w) && Get(FirstAfter(sub, r), Reg(r.f, r.d)) < Pow2(w)
    ensures Carry(FirstAfter(sub, r)) == PlainCarry(sub, r.X(), r.Y(), c, w)
    ensures Get(FirstAfter(sub, r), Reg(r.f, r.d)) == Wrapped(Exact(sub, r.X(), r.Y(), 0), w)
  {
    hide Exec, Get, PlainOf, Coherent, Pow2, FlagsButCarry, OnlyResult, Low, PlainCarry, Wrapped, NameAfter;
    ValueFits(r.before, r.b, w);
    assert Used(r.before, r.b, w, r.X()) == r.Y();
    PlainCorrect(r.before, sub, r.f, r.d, r.b, w, r.X(), c, FirstAfter(sub, r));
    RegisterBound(r.before, r.f);
    BoundIsPower(r.d);
    var z := Wrapped(Exact(sub, r.X(), r.Y(), 0), w);
    DestinationRight(r.d, R(r.before, r.f), z);
    QuotientIs(z, Bound(r.d), 0, z);
  }

  /** The number left by the chain. */
  function ChainResult(sub: bool, r: Round, rs: seq<Round>, w: nat): nat {
    Number([Get(FirstAfter(sub, r), Reg(r.f, r.d))] + Zs(sub, rs), w)
  }

  /** A multi-limb number computed with ADD then ADC, or SUB then SBB: limbs and final CF are those of the exact
    sum (difference) iff not (SUB of a zero limb while CF is set). */
  lemma ChainRightIff(sub: bool, r: Round, rs: seq<Round>, w: nat, c: nat, c1: nat)
    requires r.Operands(w) && Coherent(r.before, r.f) && Carry(r.before) == c < 2
    requires c1 == Carry(FirstAfter(sub, r)) && Linked(sub, rs, w, c1)
    ensures ChainResult(sub, r, rs, w) < Modulus(w, |rs| + 1)
    ensures RightResult(sub, Number([r.X()] + Xs(rs), w), Number([r.Y()] + Ys(rs), w), ChainResult(sub, r, rs, w),
                        LastCarry(sub, rs, c1), Modulus(w, |rs| + 1))
            <==> !(sub && r.Y() == 0 && c == 1)
  {
    hide Exec, Get, Eval, PlainOf, Coherent, Pow2, Linked, Number, Zs, Xs, Ys, LastCarry, CodeOf, Modulus, RightResult;
    FirstLimb(sub, r, w, c);
    ChainEquation(sub, rs, w, c1);
    OperandBounds(sub, rs, w, c1);
    ZsLength(sub, rs);
    NumberBound(Zs(sub, rs), w);
    var x, y, z := r.X(), r.Y(), Get(FirstAfter(sub, r), Reg(r.f, r.d));
    NumberOfCons(x, Xs(rs), w);
    NumberOfCons(y, Ys(rs), w);
    NumberOfCons(z, Zs(sub, rs), w);
    ModulusNext(w, |rs|);
    ChainArithmetic(sub, x, y, z, c, c1, LastCarry(sub, rs, c1), w, Pow2(w), Modulus(w, |rs|),
                    Number(Xs(rs), w), Number(Ys(rs), w), Number(Zs(sub, rs), w));
  }

  /** The limbs put together. If the first CF is one too high, result and final CF cannot both be right. */
  lemma ChainArithmetic(sub: bool, x: nat, y: nat, z: nat, c: nat, c1: nat, c': nat, w: nat, m: nat, p: nat,
                        xs: nat, ys: nat, zs: nat)
    requires m == Pow2(w) && x < m && y < m && c < 2 && c' < 2 && xs < p && ys < p && zs < p
    requires z == Wrapped(Exact(sub, x, y, 0), w) && c1 == PlainCarry(sub, x, y, c, w)
    requires zs == Exact(sub, xs, ys, c1) + (if sub then 1 else -1) * c' * p
    ensures z + Prod(m, zs) < Prod(m, p)
    ensures RightResult(sub, x + Prod(m, xs), y + Prod(m, ys), z + Prod(m, zs), c', Prod(m, p))
            <==> !(sub && y == 0 && c == 1)
  {
    hide Pow2, RightResult, Exact, Wrapped, PlainCarry;
    FirstRest(sub, x, y, c, w);
    if sub && y == 0 && c == 1 {
      assert zs == Exact(true, xs, ys, 1) + c' * p;
      LostLimb(x, y, z, c', m, p, xs, ys, zs);
    } else {
      KeptLimb(sub, x, y, z, c1, c', m, p, xs, ys, zs);
    }
  }

  lemma KeptLimb(sub: bool, x: nat, y: nat, z: nat, c1: nat, c': nat, m: nat, p: nat, xs: nat, ys: nat, zs: nat)
    requires x < m && y < m && z < m && c' < 2 && xs < p && ys < p && zs < p
    requires var sign := if sub then 1 else -1;
             z == Exact(sub, x, y, 0) + sign * c1 * m && zs == Exact(sub, xs, ys, c1) + sign * c' * p
    ensures z + Prod(m, zs) < Prod(m, p)
    ensures RightResult(sub, x + Prod(m, xs), y + Prod(m, ys), z + Prod(m, zs), c', Prod(m, p))
  {
    hide RightResult, Exact, Prod;
    BaseBound(x, xs, m, p);
    BaseBound(y, ys, m, p);
    BaseBound(z, zs, m, p);
    AddLimb(sub, x, y, z, 0, c1, c', m, p, xs, ys, zs);
    WithinRange(sub, x + Prod(m, xs), y + Prod(m, ys), z + Prod(m, zs), c', Prod(m, p));
  }

  /** Result and borrow are those of the exact sum (difference) modulo `m`. */
  ghost predicate RightResult(sub: bool, x: nat, y: nat, z: nat, c: nat, m: nat) {
    var t := Exact(sub, x, y, 0);
    c == Bit(!(0 <= t < m)) && z == if 0 <= t < m then t else if sub then t + m else t - m
  }

  lemma FirstRest(sub: bool, x: nat, y: nat, c: nat, w: nat)
    requires x < Pow2(w) && y < Pow2(w) && c < 2
    ensures var z, c1 := Wrapped(Exact(sub, x, y, 0), w), PlainCarry(sub, x, y, c, w);
            && 0 <= z < Pow2(w)
            && (if sub && y == 0 && c == 1 then z == x && c1 == 1
                else z == Exact(sub, x, y, 0) + (if sub then 1 else -1) * c1 * Pow2(w))
  {
    hide Pow2;
    var c1 := PlainCarry(sub, x, y, c, w);
    assert c1 * Pow2(w) == if c1 == 1 then Pow2(w) else 0;
  }

  lemma LostLimb(x: nat, y: nat, z: nat, c': nat, m: nat, p: nat, xs: nat, ys: nat, zs: nat)
    requires x < m && y == 0 && z == x && c' < 2 && xs < p && ys < p && zs < p
    requires zs == Exact(true, xs, ys, 1) + c' * p
    ensures z + Prod(m, zs) < Prod(m, p)
    ensures !RightResult(true, x + Prod(m, xs), y + Prod(m, ys), z + Prod(m, zs), c', Prod(m, p))
  {
    hide RightResult, Prod;
    BaseBound(x, xs, m, p);
    BaseBound(y, ys, m, p);
    BaseBound(z, zs, m, p);
    Distribute(m, zs, xs, ys, c', p);
    OneTooHigh(x + Prod(m, xs), Prod(m, ys), z + Prod(m, zs), c', m, Prod(m, p));
  }

  /** A result in range that differs from the exact one by the carry alone is the wrapped one. */
  lemma WithinRange(sub: bool, x: nat, y: nat, z: nat, c: nat, m: nat)
    requires c < 2 && x < m && y < m && z < m && z == Exact(sub, x, y, 0) + (if sub then 1 else -1) * c * m
    ensures RightResult(sub, x, y, z, c, m)
  {
    assert c * m == if c == 1 then m else 0;
  }

  /** A difference that is one limb too low is wrong, in itself or in its borrow. */
  lemma OneTooHigh(x: nat, y: nat, z: nat, c: nat, k: nat, m: nat)
    requires c < 2 && x < m && y < m && z < m && k > 0 && z == x - y - k + c * m
    ensures !RightResult(true, x, y, z, c, m)
  {
    assert c * m == if c == 1 then m else 0;
  }

  lemma Distribute(m: nat, zs: nat, xs: nat, ys: nat, c': nat, p: nat)
    requires zs == xs - ys - 1 + c' * p && c' < 2
    ensures Prod(m, zs) == Prod(m, xs) - Prod(m, ys) - m + c' * Prod(m, p)
  {
    if c' == 0 {
      assert m * (xs - ys - 1) == m * xs - m * ys - m;
    } else {
      assert m * (xs - ys - 1 + p) == m * xs - m * ys - m + m * p;
    }
  }
}
