/** The arithmetic instructions ADC and SBB with their flags (amd64/src/semantic.rs:80-232, 526-549,
  953-977). */
module Arithmetic {
  import opened Bits
  import opened Il
  import opened Rreil
  import opened Registers

  // ----- The code generator -----

  /** The lowest `s` bits of a value. */
  function Extract(rv: Rvalue<Name>, s: nat): Rvalue<Name> {
    match rv
    case Undefined => Undefined
    case Variable(n, k, offset, _) => Variable(n, k, offset, s)
    case Constant(c) => Constant(Const(Low(c.value, s), s))
  }

  /** `set_carry_flag` and `set_sub_carry_flag`; on four bits, the AF statements of ADC and SBB. */
  function CarryCode(sub: bool, t1: TempName, t2: TempName, flag: FlagName, res: Rvalue<Name>,
                     a: Rvalue<Name>): seq<Stmt> {
    [Do2(Equal, To(Temp(t1), 1), res, a),
     Do2(LessUnsigned, To(Temp(t2), 1), if sub then a else res, if sub then res else a),
     Do2(And, To(Temp(t1), 1), Var(Temp(t1), 1), Var(Flag(CF), 1)),
     Do2(InclusiveOr, To(Flag(flag), 1), Var(Temp(t1), 1), Var(Temp(t2), 1))]
  }

  /** `set_overflow_flag` and `set_sub_overflow_flag`. */
  function OverflowCode(sub: bool, res: Rvalue<Name>, a: Rvalue<Name>, b: Rvalue<Name>, sz: nat): seq<Stmt>
    requires sz > 0
  {
    var msb := sz - 1;
    var of1, of2, ones := Temp(Of1), Temp(Of2), Imm(0xffff_ffff_ffff_ffff, sz);
    (if sub then
       [Do2(ExclusiveOr, To(of1, sz), a, b),
        Do2(ExclusiveOr, To(of2, sz), b, res),
        Do2(ExclusiveOr, To(of2, sz), Var(of2, sz), ones)]
     else
       [Do2(ExclusiveOr, To(of1, sz), a, b),
        Do2(ExclusiveOr, To(of1, sz), Var(of1, sz), ones),
        Do2(ExclusiveOr, To(of2, sz), a, res)]) +
    [Do2(And, To(Flag(OF), 1), Slice(of1, 1, msb), Slice(of2, 1, msb))]
  }

  /** `set_parity_flag`. */
  function ParityCode(res: Rvalue<Name>): seq<Stmt> {
    [Do1(Move, To(Temp(HalfRes), 8), Extract(res, 8)),
     Do1(Move, To(Flag(PF), 1), Slice(Temp(HalfRes), 1, 0))] + ParityFrom(1)
  }

  /** Bits `k` to 7 of `half_res`, and the final negation. */
  function ParityFrom(k: nat): seq<Stmt>
    decreases 8 - k
  {
    if k < 8 then [Do2(ExclusiveOr, To(Flag(PF), 1), Var(Flag(PF), 1), Slice(Temp(HalfRes), 1, k))] + ParityFrom(k + 1)
    else [Do2(ExclusiveOr, To(Flag(PF), 1), Var(Flag(PF), 1), Imm(1, 1))]
  }

  function SumCode(sub: bool, a: Rvalue<Name>, b: Rvalue<Name>, sz: nat): seq<Stmt> {
    var op := if sub then Subtract else Add;
    [Do2(op, To(Temp(Res), sz), a, b),
     Do1(ZeroExtend(sz), To(Temp(Cf), sz), Var(Flag(CF), 1)),
     Do2(op, To(Temp(Res), sz), Var(Temp(Res), sz), Var(Temp(Cf), sz))]
  }

  function SignZeroCode(sz: nat): seq<Stmt> {
    [Do2(LessSigned, To(Flag(SF), 1), Var(Temp(Res), sz), Imm(0, sz)),
     Do2(Equal, To(Flag(ZF), 1), Var(Temp(Res), sz), Imm(0, sz))]
  }

  /** Everything ADC (or SBB, if `sub`) does before writing the result back. */
  function CalculateCode(sub: bool, a: Rvalue<Name>, b: Rvalue<Name>, sz: nat): seq<Stmt>
    requires sz > 0
  {
    var res := Var(Temp(Res), sz);
    SumCode(sub, a, b, sz) + SignZeroCode(sz) +
    CarryCode(sub, Af1, Af2, AF, Extract(res, 4), Extract(a, 4)) +
    CarryCode(sub, Cf1, Cf2, CF, res, a) +
    OverflowCode(sub, res, a, b, sz) +
    ParityCode(res)
  }

  /** Both operands at the width of the wider one, and the statements that get them there. */
  datatype Extension = Extension(a: Rvalue<Name>, b: Rvalue<Name>, size: nat, code: seq<Stmt>)

  function Widened(x: Rvalue<Name>, s: nat): Rvalue<Name> {
    match x
    case Undefined => Undefined
    case Variable(n, _, offset, size) => if size != s then Variable(Extended(n), None, offset, s + offset) else x
    case Constant(c) => if c.size != s then Constant(Const(c.value, s)) else x
  }

  function WidenCode(x: Rvalue<Name>, wide: Rvalue<Name>, from: Rvalue<Name>, sign: bool, s: nat): seq<Stmt> {
    if SizeOf(x) != SizeOf(wide) && wide.Variable? && wide.offset == 0
    then [Do1(if sign then SignExtend(s) else ZeroExtend(s), To(wide.name, wide.size), from)]
    else []
  }

  /** `extend`; None stands for a failed assertion. The second extension reads the first operand. */
  function Extend(a: Rvalue<Name>, b: Rvalue<Name>, sign: bool): (r: Option<Extension>)
    ensures r.Some? ==> r.value.size > 0
  {
    var sa, sb := if SizeOf(a).Some? then SizeOf(a).value else 0, if SizeOf(b).Some? then SizeOf(b).value else 0;
    var s := if sa < sb then sb else sa;
    var wa, wb := Widened(a, s), Widened(b, s);
    if s == 0 || (SizeOf(wa).Some? && SizeOf(wb).Some? && SizeOf(wa) != SizeOf(wb)) then None
    else Some(Extension(wa, wb, s, WidenCode(a, wa, a, sign, s) + WidenCode(b, wb, a, sign, s)))
  }

  /** `adc` and `sbb`. */
  function Calculate(sub: bool, a: Rvalue<Name>, b: Rvalue<Name>): Option<seq<Stmt>> {
    match Extend(a, b, true)
    case None => None
    case Some(e) =>
      match WriteReg(a, Var(Temp(Res), e.size))
      case None => None
      case Some(write) => Some(e.code + CalculateCode(sub, e.a, e.b, e.size) + write)
  }

  /** Operands of the same width stay as they are. */
  lemma ExtendSame(a: Rvalue<Name>, b: Rvalue<Name>, sign: bool, w: nat)
    requires SizeOf(a) == Some(w) && SizeOf(b) == Some(w) && w > 0
    ensures Extend(a, b, sign) == Some(Extension(a, b, w, []))
  {
    var none: seq<Stmt> := [];
    assert none + none == none;
  }

  lemma CalculateIs(sub: bool, a: Rvalue<Name>, b: Rvalue<Name>, w: nat, write: Option<seq<Stmt>>)
    requires SizeOf(a) == Some(w) && SizeOf(b) == Some(w) && w > 0 && write == WriteReg(a, Var(Temp(Res), w))
    requires write.Some?
    ensures Calculate(sub, a, b) == Some(CalculateCode(sub, a, b, w) + write.value)
  {
    hide WriteReg, CalculateCode;
    ExtendSame(a, b, true, w);
    var code := CalculateCode(sub, a, b, w);
    assert [] + code + write.value == code + write.value;
  }

  /** The statements, or none at all if the instruction cannot be generated. */
  function CodeOf(sub: bool, f: Family, d: Part, b: Rvalue<Name>): seq<Stmt> {
    match Calculate(sub, Var(Reg(f, d), Size(d)), b) case Some(code) => code case None => []
  }

  // ----- Single statements -----

  function Bit(b: bool): nat {
    if b then 1 else 0
  }

  lemma StepCompare(st: Cpu, op: BinaryOp, n: Name, a: Rvalue<Name>, b: Rvalue<Name>, x: nat, y: nat, w: nat,
                    truth: bool)
    requires op == Equal || op == LessUnsigned || op == LessSigned
    requires w <= 64 && x < Pow2(w) && y < Pow2(w) && Eval(st, a) == Const(x, w) && Eval(st, b) == Const(y, w)
    requires truth == Holds(op, x, y, w)
    ensures Step(st, Do2(op, To(n, 1), a, b)) == Set(st, n, Bit(truth))
  {
    hide Eval, Low, Shr, Step, Execute2, Pow2, Signed;
    Powers();
    ExecuteCompare(op, x, y, w);
    StepBinary(st, op, n, 1, a, b, Const(Bit(truth), 1));
  }

  lemma StepSum(st: Cpu, sub: bool, n: Name, a: Rvalue<Name>, b: Rvalue<Name>, x: nat, y: nat, w: nat)
    requires w <= 64 && x < Pow2(w) && y < Pow2(w) && Eval(st, a) == Const(x, w) && Eval(st, b) == Const(y, w)
    ensures var z := Wrapped(if sub then x - y else x + y, w);
            0 <= z < Pow2(w) && Step(st, Do2(if sub then Subtract else Add, To(n, w), a, b)) == Set(st, n, z)
  {
    hide Eval, Low, Shr, Step, Execute2, Pow2;
    var z := Wrapped(if sub then x - y else x + y, w);
    if sub { ExecuteSubtract(x, y, w, z); } else { ExecuteAdd(x, y, w, z); }
    StepBinary(st, if sub then Subtract else Add, n, w, a, b, Const(z, w));
  }

  lemma StepExtend(st: Cpu, n: Name, a: Rvalue<Name>, x: nat, w: nat)
    requires 0 < w <= 64 && x < 2 && Eval(st, a) == Const(x, 1)
    ensures Step(st, Do1(ZeroExtend(w), To(n, w), a)) == Set(st, n, x) && x < Pow2(w)
  {
    hide Eval, Low, Shr, Step, Signed;
    Powers();
    PowMonotone(1, w);
    LowOfSmall(x, 1);
    LowOfSmall(x, w);
    StepUnary(st, ZeroExtend(w), n, w, a, Const(x, w));
  }

  // ----- Carry and adjust flags -----

  lemma StepBit(st: Cpu, op: BinaryOp, bits: BitOp, n: Name, a: Rvalue<Name>, b: Rvalue<Name>, x: nat, y: nat)
    requires BitwiseOp(op, bits)
    requires x < 2 && y < 2 && Eval(st, a) == Const(x, 1) && Eval(st, b) == Const(y, 1)
    ensures Step(st, Do2(op, To(n, 1), a, b)) == Set(st, n, OnBit(bits, x, y))
  {
    hide Eval, Step, Bitwise, Pow2;
    Powers();
    StepBitwise(st, op, bits, n, a, b, x, y, 1);
    BitwiseOfBits(bits, x, y);
  }

  lemma ReadBit(st: Cpu, n: Name)
    requires Get(st, n) < 2
    ensures Eval(st, Var(n, 1)) == Const(Get(st, n), 1)
  {
    hide Eval, Get, Pow2;
    Powers();
    ReadWhole(st, n, 1);
  }

  /** Statements that only change temporaries other than `res`, and the flag. */
  ghost predicate Computes(st: Cpu, st': Cpu, flag: FlagName, v: nat) {
    && st'.mem == st.mem && st'.junk == st.junk
    && Get(st', Flag(flag)) == v
    && forall n: Name :: n != Flag(flag) && (n.Temp? ==> n == Temp(Res)) ==> Get(st', n) == Get(st, n)
  }

  /** The value of a operand that no flag or temporary affects. */
  ghost predicate Reads(st: Cpu, a: Rvalue<Name>, x: nat, w: nat) {
    && Eval(st, a) == Const(x, w) && x < Pow2(w)
    && (a.Constant? || (a.Variable? && (a.name.Temp? ==> a.name == Temp(Res)) && !a.name.Flag?))
  }

  lemma ReadsAgain(st: Cpu, st': Cpu, a: Rvalue<Name>, x: nat, w: nat)
    requires Reads(st, a, x, w) && (a.Variable? ==> Get(st', a.name) == Get(st, a.name))
    ensures Reads(st', a, x, w)
  {
  }

  /** The two comparisons of the carry statements. */
  lemma ExecCompares(st: Cpu, s2: Cpu, sub: bool, t1: TempName, t2: TempName, res: Rvalue<Name>, a: Rvalue<Name>,
                     z: nat, x: nat, w: nat)
    requires t1 != t2 && t1 != Res && t2 != Res && w <= 64 && Reads(st, res, z, w) && Reads(st, a, x, w)
    requires s2 == Step(Step(st, Do2(Equal, To(Temp(t1), 1), res, a)),
                        Do2(LessUnsigned, To(Temp(t2), 1), if sub then a else res, if sub then res else a))
    ensures var s1 := Set(st, Temp(t1), Bit(z == x)); s2 == Set(s1, Temp(t2), Bit(if sub then x < z else z < x))
  {
    hide Exec, Eval, Step, Execute2, Pow2, Get, Set;
    var s1 := Set(st, Temp(t1), Bit(z == x));
    StepCompare(st, Equal, Temp(t1), res, a, z, x, w, z == x);
    SetSets(st, Temp(t1), Bit(z == x));
    ReadsAgain(st, s1, res, z, w);
    ReadsAgain(st, s1, a, x, w);
    StepCompare(s1, LessUnsigned, Temp(t2), if sub then a else res, if sub then res else a, if sub then x else z,
                if sub then z else x, w, if sub then x < z else z < x);
  }

  /** The two logical operations. */
  lemma ExecLogic(s2: Cpu, s4: Cpu, t1: TempName, t2: TempName, flag: FlagName, x: nat, y: nat, c: nat)
    requires t1 != t2 && Get(s2, Temp(t1)) == x < 2 && Get(s2, Temp(t2)) == y < 2 && Get(s2, Flag(CF)) == c < 2
    requires s4 == Step(Step(s2, Do2(And, To(Temp(t1), 1), Var(Temp(t1), 1), Var(Flag(CF), 1))),
                        Do2(InclusiveOr, To(Flag(flag), 1), Var(Temp(t1), 1), Var(Temp(t2), 1)))
    ensures s4 == Set(Set(s2, Temp(t1), OnBit(AndBits, x, c)), Flag(flag), OnBit(OrBits, OnBit(AndBits, x, c), y))
  {
    hide Exec, Eval, Step, Execute2, Pow2, Get, Set, OnBit;
    var both := OnBit(AndBits, x, c);
    var s3 := Set(s2, Temp(t1), both);
    ReadBit(s2, Temp(t1));
    ReadBit(s2, Flag(CF));
    StepBit(s2, And, AndBits, Temp(t1), Var(Temp(t1), 1), Var(Flag(CF), 1), x, c);
    SetSets(s2, Temp(t1), both);
    ReadBit(s3, Temp(t1));
    ReadBit(s3, Temp(t2));
    StepBit(s3, InclusiveOr, OrBits, Flag(flag), Var(Temp(t1), 1), Var(Temp(t2), 1), both, y);
  }

  lemma ExecCarry(st: Cpu, st': Cpu, sub: bool, t1: TempName, t2: TempName, flag: FlagName,
                  res: Rvalue<Name>, a: Rvalue<Name>, z: nat, x: nat, w: nat, c: nat)
    requires t1 != t2 && t1 != Res && t2 != Res && w <= 64
    requires Reads(st, res, z, w) && Reads(st, a, x, w) && Get(st, Flag(CF)) == c < 2
    requires st' == Exec(st, CarryCode(sub, t1, t2, flag, res, a))
    ensures Computes(st, st', flag, Bit((z == x && c == 1) || if sub then x < z else z < x))
  {
    hide Exec, Eval, Step, Execute2, Pow2, Get, Reads, Set;
    var code := CarryCode(sub, t1, t2, flag, res, a);
    Exec4(st, code[0], code[1], code[2], code[3]);
    var s2 := Step(Step(st, code[0]), code[1]);
    ExecCompares(st, s2, sub, t1, t2, res, a, z, x, w);
    var eq, lt := Bit(z == x), Bit(if sub then x < z else z < x);
    var s1 := Set(st, Temp(t1), eq);
    SetSets(st, Temp(t1), eq);
    SetSets(s1, Temp(t2), lt);
    ExecLogic(s2, st', t1, t2, flag, eq, lt, c);
    var both := OnBit(AndBits, eq, c);
    SetSets(s2, Temp(t1), both);
    SetSets(Set(s2, Temp(t1), both), Flag(flag), OnBit(OrBits, both, lt));
  }

  // ----- The result, sign and zero -----

  /** The exact sum or difference, and its value modulo `Pow2(w)`. */
  function Exact(sub: bool, x: nat, y: nat, c: nat): int {
    if sub then x - y - c else x + y + c
  }

  lemma TwoSteps(sub: bool, x: nat, y: nat, c: nat, w: nat)
    requires w > 0 && x < Pow2(w) && y < Pow2(w) && c < 2
    ensures var r := Wrapped(Exact(sub, x, y, 0), w);
            Wrapped(Exact(sub, r, c, 0), w) == Wrapped(Exact(sub, x, y, c), w) < Pow2(w)
  {
  }

  /** The first three statements leave the result in `res` and change only temporaries. */
  lemma ExecSum(st: Cpu, st': Cpu, sub: bool, a: Rvalue<Name>, b: Rvalue<Name>, x: nat, y: nat, c: nat, w: nat)
    requires 0 < w <= 64 && Eval(st, a) == Const(x, w) && Eval(st, b) == Const(y, w) && x < Pow2(w) && y < Pow2(w)
    requires Get(st, Flag(CF)) == c < 2 && st' == Exec(st, SumCode(sub, a, b, w))
    ensures st'.mem == st.mem && st'.junk == st.junk && Get(st', Temp(Res)) == Wrapped(Exact(sub, x, y, c), w)
    ensures forall n: Name :: !n.Temp? ==> Get(st', n) == Get(st, n)
  {
    hide Exec, Eval, Step, Execute2, Pow2, Get, Set, Wrapped;
    var code := SumCode(sub, a, b, w);
    var op := if sub then Subtract else Add;
    Exec3(st, code[0], code[1], code[2]);
    var r := Wrapped(Exact(sub, x, y, 0), w);
    StepSum(st, sub, Temp(Res), a, b, x, y, w);
    var s1 := Set(st, Temp(Res), r);
    SetSets(st, Temp(Res), r);
    ReadBit(s1, Flag(CF));
    StepExtend(s1, Temp(Cf), Var(Flag(CF), 1), c, w);
    var s2 := Set(s1, Temp(Cf), c);
    SetSets(s1, Temp(Cf), c);
    ReadWhole(s2, Temp(Res), w);
    ReadWhole(s2, Temp(Cf), w);
    StepSum(s2, sub, Temp(Res), Var(Temp(Res), w), Var(Temp(Cf), w), r, c, w);
    TwoSteps(sub, x, y, c, w);
    SetSets(s2, Temp(Res), Wrapped(Exact(sub, r, c, 0), w));
  }

  lemma SignIsTopBit(z: nat, w: nat)
    requires 0 < w && z < Pow2(w)
    ensures (Signed(z, w) < 0) == (z >= Pow2(w - 1)) && Signed(0, w) == 0
  {
  }

  lemma ExecSignZero(st: Cpu, st': Cpu, z: nat, w: nat)
    requires 0 < w <= 64 && Get(st, Temp(Res)) == z < Pow2(w) && st' == Exec(st, SignZeroCode(w))
    ensures st'.mem == st.mem && st'.junk == st.junk
    ensures Get(st', Flag(SF)) == Bit(z >= Pow2(w - 1)) && Get(st', Flag(ZF)) == Bit(z == 0)
    ensures forall n :: n != Flag(SF) && n != Flag(ZF) ==> Get(st', n) == Get(st, n)
  {
    hide Exec, Eval, Step, Execute2, Pow2, Get, Set, Signed;
    var code := SignZeroCode(w);
    Exec2(st, code[0], code[1]);
    SignIsTopBit(z, w);
    ReadWhole(st, Temp(Res), w);
    EvalImm(st, 0, w);
    StepCompare(st, LessSigned, Flag(SF), Var(Temp(Res), w), Imm(0, w), z, 0, w, z >= Pow2(w - 1));
    var s1 := Set(st, Flag(SF), Bit(z >= Pow2(w - 1)));
    SetSets(st, Flag(SF), Bit(z >= Pow2(w - 1)));
    ReadWhole(s1, Temp(Res), w);
    EvalImm(s1, 0, w);
    StepCompare(s1, Equal, Flag(ZF), Var(Temp(Res), w), Imm(0, w), z, 0, w, z == 0);
    SetSets(s1, Flag(ZF), Bit(z == 0));
  }

  // ----- Overflow -----

  lemma AllOnes(st: Cpu, w: nat)
    requires w <= 64
    ensures Eval(st, Imm(0xffff_ffff_ffff_ffff, w)) == Const(Pow2(w) - 1, w)
  {
    hide Low, Shl, Pow2, Get;
    Powers();
    Pow2Add(64 - w, w);
    OnesSplit(64 - w, w);
    Disassemble(0xffff_ffff_ffff_ffff, Pow2(64 - w) - 1, Pow2(w) - 1, w);
  }

  lemma ReadTop(st: Cpu, n: Name, v: nat, w: nat)
    requires w > 0 && Get(st, n) == v < Pow2(w)
    ensures Eval(st, Slice(n, 1, w - 1)) == Const(TopBit(v, w - 1), 1)
  {
    hide Low, Shr, Pow2, Get;
    TopBitIsShift(v, w - 1);
    Powers();
    LowOfSmall(TopBit(v, w - 1), 1);
  }

  /** Negation flips the top bit. */
  lemma FlippedTop(v: nat, w: nat)
    requires w > 0 && v < Pow2(w)
    ensures Bitwise(XorBits, v, Pow2(w) - 1) == Pow2(w) - 1 - v
    ensures TopBit(Pow2(w) - 1 - v, w - 1) == 1 - TopBit(v, w - 1)
  {
    XorOnesBound(v, w);
  }

  /** Only a temporary changes, and this is its top bit. */
  ghost predicate TopComputed(st: Cpu, st': Cpu, n: TempName, top: nat, w: nat)
    requires w > 0
  {
    && st'.mem == st.mem && st'.junk == st.junk
    && Get(st', Temp(n)) < Pow2(w) && TopBit(Get(st', Temp(n)), w - 1) == top
    && forall m: Name :: m != Temp(n) ==> Get(st', m) == Get(st, m)
  }

  lemma ExecXor(st: Cpu, st': Cpu, n: TempName, p: Rvalue<Name>, q: Rvalue<Name>, u: nat, v: nat, w: nat)
    requires 0 < w <= 64 && Reads(st, p, u, w) && Reads(st, q, v, w)
    requires st' == Step(st, Do2(ExclusiveOr, To(Temp(n), w), p, q))
    ensures TopComputed(st, st', n, OnBit(XorBits, TopBit(u, w - 1), TopBit(v, w - 1)), w)
  {
    hide Eval, Step, Execute2, Pow2, Get, Set, Bitwise, TopBit, OnBit;
    StepBitwise(st, ExclusiveOr, XorBits, Temp(n), p, q, u, v, w);
    BitwiseTop(XorBits, u, v, w - 1);
    SetSets(st, Temp(n), Bitwise(XorBits, u, v));
  }

  lemma ExecNot(st: Cpu, st': Cpu, n: TempName, v: nat, w: nat)
    requires 0 < w <= 64 && Get(st, Temp(n)) == v < Pow2(w)
    requires st' == Step(st, Do2(ExclusiveOr, To(Temp(n), w), Var(Temp(n), w), Imm(0xffff_ffff_ffff_ffff, w)))
    ensures TopComputed(st, st', n, 1 - TopBit(v, w - 1), w)
  {
    hide Eval, Step, Execute2, Pow2, Get, Set, Bitwise;
    ReadWhole(st, Temp(n), w);
    AllOnes(st, w);
    FlippedTop(v, w);
    StepBitwise(st, ExclusiveOr, XorBits, Temp(n), Var(Temp(n), w), Imm(0xffff_ffff_ffff_ffff, w), v, Pow2(w) - 1, w);
    SetSets(st, Temp(n), Pow2(w) - 1 - v);
  }

  lemma ExecAndTops(st: Cpu, st': Cpu, u: nat, v: nat, w: nat)
    requires 0 < w <= 64 && Get(st, Temp(Of1)) == u < Pow2(w) && Get(st, Temp(Of2)) == v < Pow2(w)
    requires st' == Step(st, Do2(And, To(Flag(OF), 1), Slice(Temp(Of1), 1, w - 1), Slice(Temp(Of2), 1, w - 1)))
    ensures Sets(st, st', Flag(OF), OnBit(AndBits, TopBit(u, w - 1), TopBit(v, w - 1)))
  {
    hide Eval, Step, Execute2, Pow2, Get, Set, OnBit;
    ReadTop(st, Temp(Of1), u, w);
    ReadTop(st, Temp(Of2), v, w);
    StepBit(st, And, AndBits, Flag(OF), Slice(Temp(Of1), 1, w - 1), Slice(Temp(Of2), 1, w - 1), TopBit(u, w - 1),
            TopBit(v, w - 1));
    SetSets(st, Flag(OF), OnBit(AndBits, TopBit(u, w - 1), TopBit(v, w - 1)));
  }

  /** The overflow flag in terms of the sign bits. */
  function OverflowBit(sub: bool, a: nat, b: nat, r: nat): nat {
    if sub then OnBit(AndBits, OnBit(XorBits, a, b), 1 - OnBit(XorBits, b, r))
    else OnBit(AndBits, 1 - OnBit(XorBits, a, b), OnBit(XorBits, a, r))
  }

  lemma ExecOverflow(st: Cpu, st': Cpu, sub: bool, res: Rvalue<Name>, a: Rvalue<Name>, b: Rvalue<Name>, z: nat,
                     x: nat, y: nat, w: nat)
    requires 0 < w <= 64 && Reads(st, res, z, w) && Reads(st, a, x, w) && Reads(st, b, y, w)
    requires st' == Exec(st, OverflowCode(sub, res, a, b, w))
    ensures Computes(st, st', OF, OverflowBit(sub, TopBit(x, w - 1), TopBit(y, w - 1), TopBit(z, w - 1)))
  {
    hide Exec, Eval, Step, Execute2, Pow2, Get, Set, TopBit, OnBit;
    var code := OverflowCode(sub, res, a, b, w);
    Exec4(st, code[0], code[1], code[2], code[3]);
    var s1 := Step(st, code[0]);
    var s2 := Step(s1, code[1]);
    var s3 := Step(s2, code[2]);
    ExecXor(st, s1, Of1, a, b, x, y, w);
    if sub {
      ReadsAgain(st, s1, b, y, w);
      ReadsAgain(st, s1, res, z, w);
      ExecXor(s1, s2, Of2, b, res, y, z, w);
      ExecNot(s2, s3, Of2, Get(s2, Temp(Of2)), w);
    } else {
      ExecNot(s1, s2, Of1, Get(s1, Temp(Of1)), w);
      ReadsAgain(st, s2, a, x, w);
      ReadsAgain(st, s2, res, z, w);
      ExecXor(s2, s3, Of2, a, res, x, z, w);
    }
    assert code[3] == Do2(And, To(Flag(OF), 1), Slice(Temp(Of1), 1, w - 1), Slice(Temp(Of2), 1, w - 1));
    assert code == [code[0], code[1], code[2], code[3]];
    ExecAndTops(s3, st', Get(s3, Temp(Of1)), Get(s3, Temp(Of2)), w);
  }

  /** It says that the signed result is out of range. */
  lemma OverflowIsSignedOverflow(sub: bool, x: nat, y: nat, c: nat, w: nat)
    requires w > 0 && x < Pow2(w) && y < Pow2(w) && c < 2
    ensures var z: int, h: int := Wrapped(Exact(sub, x, y, c), w), Pow2(w - 1);
            0 <= z && OverflowBit(sub, TopBit(x, w - 1), TopBit(y, w - 1), TopBit(z, w - 1)) ==
            var exact := if sub then Signed(x, w) - Signed(y, w) - c else Signed(x, w) + Signed(y, w) + c;
            Bit(!(-h <= exact < h))
  {
  }

  // ----- Parity -----

  /** The number of ones among the lowest `k` bits. */
  function Ones(v: nat, k: nat): nat {
    if k == 0 then 0 else Ones(v, k - 1) + Shr(v, k - 1) % 2
  }

  lemma ReadBitAt(st: Cpu, n: Name, k: nat)
    ensures Eval(st, Slice(n, 1, k)) == Const(Shr(Get(st, n), k) % 2, 1)
  {
    hide Shr, Get;
    Powers();
    LowIsRemainder(Shr(Get(st, n), k), 1, 2);
  }

  /** One more bit goes into PF. */
  lemma ParityStep(st: Cpu, st1: Cpu, v: nat, k: nat)
    requires k < 8 && Get(st, Temp(HalfRes)) == v && Get(st, Flag(PF)) == Ones(v, k) % 2
    requires st1 == Exec(st, [Do2(ExclusiveOr, To(Flag(PF), 1), Var(Flag(PF), 1), Slice(Temp(HalfRes), 1, k))])
    ensures Sets(st, st1, Flag(PF), Ones(v, k + 1) % 2)
  {
    hide Eval, Step, Execute2, Pow2, Get, Set, Exec, Shr;
    var pf, bit := Get(st, Flag(PF)), Shr(v, k) % 2;
    ReadBit(st, Flag(PF));
    ReadBitAt(st, Temp(HalfRes), k);
    StepBit(st, ExclusiveOr, XorBits, Flag(PF), Var(Flag(PF), 1), Slice(Temp(HalfRes), 1, k), pf, bit);
    SetSets(st, Flag(PF), OnBit(XorBits, pf, bit));
    Exec1(st, Do2(ExclusiveOr, To(Flag(PF), 1), Var(Flag(PF), 1), Slice(Temp(HalfRes), 1, k)));
    assert Ones(v, k + 1) == Ones(v, k) + bit;
  }

  /** The final negation. */
  lemma ParityEnd(st: Cpu, st1: Cpu, pf: nat)
    requires Get(st, Flag(PF)) == pf < 2
    requires st1 == Exec(st, [Do2(ExclusiveOr, To(Flag(PF), 1), Var(Flag(PF), 1), Imm(1, 1))])
    ensures Sets(st, st1, Flag(PF), 1 - pf)
  {
    hide Eval, Step, Execute2, Pow2, Get, Set, Exec;
    ReadBit(st, Flag(PF));
    Exec1(st, Do2(ExclusiveOr, To(Flag(PF), 1), Var(Flag(PF), 1), Imm(1, 1)));
    Powers();
    EvalImm(st, 1, 1);
    StepBit(st, ExclusiveOr, XorBits, Flag(PF), Var(Flag(PF), 1), Imm(1, 1), pf, 1);
    SetSets(st, Flag(PF), OnBit(XorBits, pf, 1));
  }

  lemma {:induction false} ExecParityFrom(st: Cpu, v: nat, k: nat)
    requires k <= 8 && Get(st, Temp(HalfRes)) == v && Get(st, Flag(PF)) == Ones(v, k) % 2
    ensures Sets(st, Exec(st, ParityFrom(k)), Flag(PF), 1 - Ones(v, 8) % 2)
    decreases 8 - k
  {
    hide Get, Exec, Ones;
    if k < 8 {
      var s := Do2(ExclusiveOr, To(Flag(PF), 1), Var(Flag(PF), 1), Slice(Temp(HalfRes), 1, k));
      var st1 := Exec(st, [s]);
      ParityStep(st, st1, v, k);
      ExecAppend(st, [s], ParityFrom(k + 1));
      ExecParityFrom(st1, v, k + 1);
    } else {
      ParityEnd(st, Exec(st, ParityFrom(k)), Ones(v, 8) % 2);
    }
  }

  lemma ExecParity(st: Cpu, st': Cpu, z: nat, w: nat)
    requires 8 <= w <= 64 && Get(st, Temp(Res)) == z < Pow2(w) && st' == Exec(st, ParityCode(Var(Temp(Res), w)))
    ensures Computes(st, st', PF, Bit(Ones(z % 0x100, 8) % 2 == 0))
  {
    hide Eval, Step, Execute2, Get, Set, Exec, Low, Shr, ParityFrom, Ones, Pow2;
    var v := z % 0x100;
    var m1 := Do1(Move, To(Temp(HalfRes), 8), Slice(Temp(Res), 8, 0));
    var m2 := Do1(Move, To(Flag(PF), 1), Slice(Temp(HalfRes), 1, 0));
    ExecAppend(st, [m1, m2], ParityFrom(1));
    Exec2(st, m1, m2);
    Powers();
    assert Eval(st, Slice(Temp(Res), 8, 0)) == Const(v, 8) by {
      ReadSlice(st, Temp(Res), 8);
      LowIsRemainder(z, 8, 0x100);
    }
    StepMove(st, To(Temp(HalfRes), 8), Slice(Temp(Res), 8, 0), v, 8);
    var s1 := Set(st, Temp(HalfRes), v);
    SetSets(st, Temp(HalfRes), v);
    ReadBitAt(s1, Temp(HalfRes), 0);
    ShiftNone(v);
    StepMove(s1, To(Flag(PF), 1), Slice(Temp(HalfRes), 1, 0), v % 2, 1);
    var s2 := Set(s1, Flag(PF), v % 2);
    SetSets(s1, Flag(PF), v % 2);
    FirstBit(v);
    ExecParityFrom(s2, v, 1);
  }

  lemma FirstBit(v: nat)
    ensures Ones(v, 1) == v % 2
  {
    assert Ones(v, 0) == 0;
  }

  lemma ReadSlice(st: Cpu, n: Name, s: nat)
    ensures Eval(st, Slice(n, s, 0)) == Const(Low(Get(st, n), s), s)
  {
    hide Low, Get;
  }

  // ----- What the carry and adjust flags mean -----

  /** The comparison of the wrapped result with the first operand tells the carry or borrow. */
  lemma CarryIsOutOfRange(sub: bool, x: nat, y: nat, c: nat, w: nat)
    requires x < Pow2(w) && y < Pow2(w) && c < 2
    ensures var z, t := Wrapped(Exact(sub, x, y, c), w), Exact(sub, x, y, c);
            ((z == x && c == 1) || if sub then x < z else z < x) == !(0 <= t < Pow2(w))
  {
  }

  /** The low four bits are added or subtracted on their own. */
  lemma LowNibble(sub: bool, x: nat, y: nat, c: nat, w: nat)
    requires 4 <= w && x < Pow2(w) && y < Pow2(w) && c < 2
    ensures var z := Wrapped(Exact(sub, x, y, c), w);
            0 <= z && z % 16 == Wrapped(Exact(sub, x % 16, y % 16, c), 4)
  {
    hide Pow2;
    Powers();
    var m := Pow2(w - 4);
    Pow2Add(w - 4, 4);
    var z, t := Wrapped(Exact(sub, x, y, c), w), Exact(sub, x, y, c);
    var k: int := if t < 0 then 1 else if t < Pow2(w) then 0 else -1;
    assert z == t + k * (16 * m);
    assert k * (16 * m) == 16 * (k * m) by { assert k == 0 || k == 1 || k == -1; }
    NibbleOf(sub, x, y, c, z, k * m);
  }

  lemma NibbleOf(sub: bool, x: nat, y: nat, c: nat, z: int, q: int)
    requires c < 2 && z == Exact(sub, x, y, c) + 16 * q
    ensures z % 16 == Wrapped(Exact(sub, x % 16, y % 16, c), 4)
  {
    var a, b := x / 16, y / 16;
    var t := Exact(sub, x % 16, y % 16, c);
    var base := if sub then a - b + q else a + b + q;
    assert z == base * 16 + t;
    Powers();
    var k := if t < 0 then -1 else if t < 16 then 0 else 1;
    QuotientIs(z, 16, base + k, t - 16 * k);
  }

  // ----- The whole instruction -----

  /** The flags section 3.4.3.1 of volume 1 of the Intel SDM asks for. `t` is the exact result and
    `z` what is left of it in `w` bits. */
  ghost predicate FlagsRight(st': Cpu, sub: bool, x: nat, y: nat, c: nat, z: nat, w: nat)
    requires w > 0 && x < Pow2(w) && y < Pow2(w)
  {
    var signed := if sub then Signed(x, w) - Signed(y, w) - c else Signed(x, w) + Signed(y, w) + c;
    && Get(st', Flag(CF)) == Bit(!(0 <= Exact(sub, x, y, c) < Pow2(w)))
    && Get(st', Flag(AF)) == Bit(!(0 <= Exact(sub, x % 16, y % 16, c) < 16))
    && Get(st', Flag(OF)) == Bit(signed < -(Pow2(w - 1) as int) || signed >= Pow2(w - 1))
    && Get(st', Flag(SF)) == Bit(z >= Pow2(w - 1))
    && Get(st', Flag(ZF)) == Bit(z == 0)
    && Get(st', Flag(PF)) == Bit(Ones(z % 0x100, 8) % 2 == 0)
  }

  /** An operand the flags and temporaries do not affect; `Steady` if extended operands do not either. */
  predicate Untouched(a: Rvalue<Name>) {
    a.Constant? || (a.Variable? && !a.name.Temp? && !a.name.Flag?)
  }

  predicate Steady(a: Rvalue<Name>) {
    Untouched(a) && (a.Variable? ==> !a.name.Extended?)
  }

  lemma ExtractReads(st: Cpu, a: Rvalue<Name>, x: nat, w: nat)
    requires 4 <= w <= 64 && Reads(st, a, x, w)
    ensures Reads(st, Extract(a, 4), x % 16, 4)
  {
    hide Low, Shr, Pow2, Get;
    Powers();
    LowIsRemainder(x, 4, 16);
    if a.Variable? {
      var v := Shr(Get(st, a.name), a.offset);
      LowLow(v, w, 4);
      assert Eval(st, Extract(a, 4)) == Const(Low(v, 4), 4);
    } else {
      LowLow(a.c.value, w, 4);
      LowLow(a.c.value, 4, 4);
      assert Eval(st, Extract(a, 4)) == Const(Low(Low(a.c.value, 4), 4), 4);
    }
  }

  lemma {:induction false} LowLow(v: nat, w: nat, s: nat)
    requires s <= w
    ensures Low(Low(v, w), s) == Low(v, s)
    decreases w
  {
    if s > 0 {
      assert Low(v, w) / 2 == Low(v / 2, w - 1) && Low(v, w) % 2 == v % 2;
      LowLow(v / 2, w - 1, s - 1);
    }
  }

  lemma Exec6(st: Cpu, a: seq<Stmt>, b: seq<Stmt>, c: seq<Stmt>, d: seq<Stmt>, e: seq<Stmt>, f: seq<Stmt>)
    ensures Exec(st, a + b + c + d + e + f) == Exec(Exec(Exec(Exec(Exec(Exec(st, a), b), c), d), e), f)
  {
    hide Exec;
    ExecAppend(st, a + b + c + d + e, f);
    Exec5(st, a, b, c, d, e);
  }

  /** What the statements before the write-back do. */
  ghost predicate CalculatedOnly(st: Cpu, st': Cpu) {
    st'.mem == st.mem && st'.junk == st.junk && forall n: Name :: !n.Temp? && !n.Flag? ==> Get(st', n) == Get(st, n)
  }

  /** Result, sign and zero flags, ready for the other flags. */
  lemma ExecFirstHalf(st: Cpu, s2: Cpu, sub: bool, a: Rvalue<Name>, b: Rvalue<Name>, x: nat, y: nat, c: nat, z: nat,
                      w: nat)
    requires 8 <= w <= 64 && Untouched(a) && Untouched(b) && Reads(st, a, x, w) && Reads(st, b, y, w)
    requires Get(st, Flag(CF)) == c < 2
    requires s2 == Exec(Exec(st, SumCode(sub, a, b, w)), SignZeroCode(w))
    requires z == Wrapped(Exact(sub, x, y, c), w) && z < Pow2(w)
    ensures CalculatedOnly(st, s2) && Get(s2, Flag(CF)) == c
    ensures Get(s2, Temp(Res)) == z && Get(s2, Flag(SF)) == Bit(z >= Pow2(w - 1)) && Get(s2, Flag(ZF)) == Bit(z == 0)
    ensures Reads(s2, a, x, w) && Reads(s2, b, y, w) && Reads(s2, Var(Temp(Res), w), z, w)
  {
    hide Exec, Eval, Get, Pow2, Wrapped, Exact;
    var s1 := Exec(st, SumCode(sub, a, b, w));
    ExecSum(st, s1, sub, a, b, x, y, c, w);
    ExecSignZero(s1, s2, z, w);
    ReadsAgain(st, s2, a, x, w);
    ReadsAgain(st, s2, b, y, w);
    ReadWhole(s2, Temp(Res), w);
  }

  /** Adjust and carry flags. */
  lemma ExecCarries(s2: Cpu, s4: Cpu, sub: bool, a: Rvalue<Name>, b: Rvalue<Name>, x: nat, y: nat, c: nat, z: nat,
                    w: nat)
    requires 8 <= w <= 64 && Get(s2, Flag(CF)) == c < 2
    requires Reads(s2, a, x, w) && Reads(s2, b, y, w) && Reads(s2, Var(Temp(Res), w), z, w)
    requires var res := Var(Temp(Res), w);
             s4 == Exec(Exec(s2, CarryCode(sub, Af1, Af2, AF, Extract(res, 4), Extract(a, 4))),
                        CarryCode(sub, Cf1, Cf2, CF, res, a))
    ensures s4.mem == s2.mem && s4.junk == s2.junk
    ensures forall n: Name :: n != Flag(AF) && n != Flag(CF) && (n.Temp? ==> n == Temp(Res)) ==>
              Get(s4, n) == Get(s2, n)
    ensures Get(s4, Flag(AF)) == Bit((z % 16 == x % 16 && c == 1) || if sub then x % 16 < z % 16 else z % 16 < x % 16)
    ensures Get(s4, Flag(CF)) == Bit((z == x && c == 1) || if sub then x < z else z < x)
    ensures Reads(s4, a, x, w) && Reads(s4, b, y, w) && Reads(s4, Var(Temp(Res), w), z, w)
  {
    hide Exec, Eval, Get, Pow2, CarryCode, Bit, Extract;
    var res := Var(Temp(Res), w);
    var s3 := Exec(s2, CarryCode(sub, Af1, Af2, AF, Extract(res, 4), Extract(a, 4)));
    ExtractReads(s2, res, z, w);
    ExtractReads(s2, a, x, w);
    ExecCarry(s2, s3, sub, Af1, Af2, AF, Extract(res, 4), Extract(a, 4), z % 16, x % 16, 4, c);
    ReadsAgain(s2, s3, res, z, w);
    ReadsAgain(s2, s3, a, x, w);
    ExecCarry(s3, s4, sub, Cf1, Cf2, CF, res, a, z, x, w, c);
    ReadsAgain(s2, s4, res, z, w);
    ReadsAgain(s2, s4, a, x, w);
    ReadsAgain(s2, s4, b, y, w);
  }

  /** Adjust, carry, overflow and parity flags. */
  lemma ExecSecondHalf(s2: Cpu, s6: Cpu, sub: bool, a: Rvalue<Name>, b: Rvalue<Name>, x: nat, y: nat, c: nat,
                       z: nat, w: nat)
    requires 8 <= w <= 64 && Get(s2, Flag(CF)) == c < 2 && Get(s2, Temp(Res)) == z
    requires Reads(s2, a, x, w) && Reads(s2, b, y, w) && Reads(s2, Var(Temp(Res), w), z, w)
    requires var res := Var(Temp(Res), w);
             s6 == Exec(Exec(Exec(Exec(s2, CarryCode(sub, Af1, Af2, AF, Extract(res, 4), Extract(a, 4))),
                                  CarryCode(sub, Cf1, Cf2, CF, res, a)),
                             OverflowCode(sub, res, a, b, w)), ParityCode(res))
    ensures CalculatedOnly(s2, s6) && Get(s6, Temp(Res)) == z
    ensures Get(s6, Flag(SF)) == Get(s2, Flag(SF)) && Get(s6, Flag(ZF)) == Get(s2, Flag(ZF))
    ensures Get(s6, Flag(AF)) == Bit((z % 16 == x % 16 && c == 1) || if sub then x % 16 < z % 16 else z % 16 < x % 16)
    ensures Get(s6, Flag(CF)) == Bit((z == x && c == 1) || if sub then x < z else z < x)
    ensures Get(s6, Flag(OF)) == OverflowBit(sub, TopBit(x, w - 1), TopBit(y, w - 1), TopBit(z, w - 1))
    ensures Get(s6, Flag(PF)) == Bit(Ones(z % 0x100, 8) % 2 == 0)
  {
    hide Exec, Eval, Get, Pow2, TopBit, OverflowBit, Ones, CarryCode, OverflowCode, ParityCode, Bit, Extract, Reads;
    var res := Var(Temp(Res), w);
    var s4 := Exec(Exec(s2, CarryCode(sub, Af1, Af2, AF, Extract(res, 4), Extract(a, 4))),
                   CarryCode(sub, Cf1, Cf2, CF, res, a));
    ExecCarries(s2, s4, sub, a, b, x, y, c, z, w);
    var s5 := Exec(s4, OverflowCode(sub, res, a, b, w));
    ExecOverflow(s4, s5, sub, res, a, b, z, x, y, w);
    ReadsBound(s2, res, z, w);
    ExecParity(s5, s6, z, w);
  }

  lemma ExecCalculate(st: Cpu, st': Cpu, sub: bool, a: Rvalue<Name>, b: Rvalue<Name>, x: nat, y: nat, c: nat, w: nat)
    requires 8 <= w <= 64 && Untouched(a) && Untouched(b) && Reads(st, a, x, w) && Reads(st, b, y, w)
    requires Get(st, Flag(CF)) == c < 2
    requires st' == Exec(st, CalculateCode(sub, a, b, w))
    ensures var z := Wrapped(Exact(sub, x, y, c), w);
            && 0 <= z < Pow2(w) && CalculatedOnly(st, st') && Get(st', Temp(Res)) == z
            && FlagsRight(st', sub, x, y, c, z, w)
  {
    hide Exec, Eval, Get, Pow2, TopBit, OverflowBit, Ones, CarryCode, OverflowCode, ParityCode, SumCode,
      SignZeroCode, Extract, Signed;
    var res := Var(Temp(Res), w);
    TwoSteps(sub, x, y, c, w);
    OverflowIsSignedOverflow(sub, x, y, c, w);
    var z := Wrapped(Exact(sub, x, y, c), w);
    Exec6(st, SumCode(sub, a, b, w), SignZeroCode(w), CarryCode(sub, Af1, Af2, AF, Extract(res, 4), Extract(a, 4)),
          CarryCode(sub, Cf1, Cf2, CF, res, a), OverflowCode(sub, res, a, b, w), ParityCode(res));
    var s2 := Exec(Exec(st, SumCode(sub, a, b, w)), SignZeroCode(w));
    ExecFirstHalf(st, s2, sub, a, b, x, y, c, z, w);
    ExecSecondHalf(s2, st', sub, a, b, x, y, c, z, w);
    CarryIsOutOfRange(sub, x, y, c, w);
    LowNibble(sub, x, y, c, w);
    SmallPowers();
    CarryIsOutOfRange(sub, x % 16, y % 16, c, 4);
  }

  /** The flags and the other families' registers are the only other things that change. */
  ghost predicate OnlyFlagsAndFamily(st: Cpu, st': Cpu, f: Family) {
    st'.mem == st.mem && forall n: Name :: !n.Temp? && !n.Flag? && !(n.Reg? && n.family == f) ==>
         Get(st', n) == Get(st, n)
  }

  /** The exact carry or borrow out. */
  function CarryOut(sub: bool, x: nat, y: nat, c: nat, w: nat): nat {
    Bit(!(0 <= Exact(sub, x, y, c) < Pow2(w)))
  }

  /** `adc` and `sbb` on a register and an operand of its width: the register gets the sum (difference) modulo
    `Pow2(w)`, CF the rest, all flags are as the manual says and the register's family stays coherent. */
  lemma CalculateEqual(st: Cpu, sub: bool, f: Family, d: Part, b: Rvalue<Name>, x: nat, y: nat, c: nat, st': Cpu)
    requires Exists(f, d) && Coherent(st, f) && Untouched(b) && HasSize(b, Size(d))
    requires x == Get(st, Reg(f, d)) && y == Eval(st, b).value && c == Get(st, Flag(CF)) < 2
    requires st' == Exec(st, CodeOf(sub, f, d, b))
    ensures var z, w := Get(st', Reg(f, d)), Size(d);
            && x < Pow2(w) && y < Pow2(w) && z < Pow2(w)
            && z == Exact(sub, x, y, c) + (if sub then 1 else -1) * Get(st', Flag(CF)) * Pow2(w)
            && FlagsRight(st', sub, x, y, c, z, w)
            && R(st', f) == Written(d, R(st, f), z)
    ensures Coherent(st', f) && OnlyFlagsAndFamily(st, st', f)
  {
    hide Exec, Eval, Get, Pow2, Calculate, CalculateCode, WriteReg, Written, FlagsRight, Coherent, Exact, Wrapped,
      Reads, OnlyFamily, CalculatedOnly, OnlyFlagsAndFamily;
    var w, a := Size(d), Var(Reg(f, d), Size(d));
    OperandReads(st, f, d, b);
    var code := CalculateCode(sub, a, b, w);
    var write := WriteReg(a, Var(Temp(Res), w));
    WriteSucceeds(a, Var(Temp(Res), w));
    CalculateIs(sub, a, b, w, write);
    var st1 := Exec(st, code);
    ExecCalculate(st, st1, sub, a, b, x, y, c, w);
    var z := Get(st1, Temp(Res));
    ReadWhole(st1, Temp(Res), w);
    CoherentAgain(st, st1, f);
    WriteRegCorrect(st1, f, d, Var(Temp(Res), w), z);
    ExecAppend(st, code, write.value);
    RegisterBound(st, f);
    ReadsBound(st, a, x, w);
    ReadsBound(st, b, y, w);
    PartAfterWrite(st', f, d, R(st, f), z);
    FlagsKept(st, st1, st', f, sub, x, y, c, z, w);
    RestIsCarry(sub, x, y, c, w);
  }

  lemma RegisterBound(st: Cpu, f: Family)
    requires Coherent(st, f)
    ensures R(st, f) < Bound(R64)
  {
  }

  lemma ReadsBound(st: Cpu, a: Rvalue<Name>, x: nat, w: nat)
    requires Reads(st, a, x, w)
    ensures x < Pow2(w)
  {
  }

  lemma FlagsKept(st: Cpu, st1: Cpu, st': Cpu, f: Family, sub: bool, x: nat, y: nat, c: nat, z: nat, w: nat)
    requires w > 0 && x < Pow2(w) && y < Pow2(w) && FlagsRight(st1, sub, x, y, c, z, w)
    requires CalculatedOnly(st, st1) && OnlyFamily(st1, st', f)
    ensures FlagsRight(st', sub, x, y, c, z, w) && OnlyFlagsAndFamily(st, st', f)
    ensures Get(st', Flag(CF)) == CarryOut(sub, x, y, c, w)
  {
    hide Get, Pow2, Signed, Exact, Ones;
  }

  lemma RestIsCarry(sub: bool, x: nat, y: nat, c: nat, w: nat)
    requires w > 0 && x < Pow2(w) && y < Pow2(w) && c < 2
    ensures var t, carry := Exact(sub, x, y, c), CarryOut(sub, x, y, c, w);
            Wrapped(t, w) == t + (if sub then 1 else -1) * carry * Pow2(w)
  {
    hide Pow2;
    var k := CarryOut(sub, x, y, c, w);
    assert k == 0 || k == 1;
  }

  lemma OperandReads(st: Cpu, f: Family, d: Part, b: Rvalue<Name>)
    requires Exists(f, d) && Coherent(st, f) && Untouched(b) && HasSize(b, Size(d))
    ensures Reads(st, b, Eval(st, b).value, Size(d)) && Reads(st, Var(Reg(f, d), Size(d)), Get(st, Reg(f, d)), Size(d))
  {
    hide Get, Pow2, PartOf, Low, Shr, Eval;
    ValueFits(st, b, Size(d));
    PartBound(d, R(st, f));
    BoundIsPower(d);
    ReadWhole(st, Reg(f, d), Size(d));
  }

  lemma CoherentAgain(st: Cpu, st1: Cpu, f: Family)
    requires Coherent(st, f) && CalculatedOnly(st, st1)
    ensures Coherent(st1, f) && R(st1, f) == R(st, f)
  {
    hide Get, PartOf;
  }

  lemma PartAfterWrite(st': Cpu, f: Family, d: Part, r: nat, z: nat)
    requires Exists(f, d) && Coherent(st', f) && r < Bound(R64) && z < Pow2(Size(d)) && R(st', f) == Written(d, r, z)
    ensures Get(st', Reg(f, d)) == z
  {
    hide Get, PartOf, Written, Pow2;
    BoundIsPower(d);
    var val := if d == H8 then z * 0x100 else z;
    CoveredValue(d, d, r, z, val);
    SmallPart(d, z, val);
  }

  lemma SmallPart(d: Part, z: nat, val: nat)
    requires z < Bound(d) && val == if d == H8 then z * 0x100 else z
    ensures PartOf(d, val) == z
  {
    if d == H8 { QuotientIs(val, 0x100, z, 0); }
    if d != R64 { QuotientIs(z, Bound(d), 0, z); }
  }
}
