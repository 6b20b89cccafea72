/** Execution of RREIL: `il::execute` on constants (core/src/il.rs:636-1059) and a machine with
  named variables and byte-addressed memory for the statements the code generator emits. */
module Rreil {
  import opened Bits
  import opened Il

  // ----- Operations on constants -----

  /** Values are kept in 64 bits at most. */
  function Width(size: nat): nat {
    if size < 64 then size else 64
  }

  function Truth(b: bool): Option<Const> {
    Some(Const(if b then 1 else 0, 1))
  }

  /** The two's complement reading of a value of `w` bits, and back. */
  function Signed(v: nat, w: nat): int
    requires v < Pow2(w)
  {
    if w > 0 && TopBit(v, w - 1) == 1 then v - Pow2(w) else v
  }

  function Unsigned(v: int, w: nat): nat {
    if v >= 0 then Low(v, w) else Low(Pow2(w) - Low(-v, w), w)
  }

  /** The signed reading of a 64-bit pattern, however far out of range the number is. */
  function Wrapped64(v: int): int {
    var r := v % 0x1_0000_0000_0000_0000;
    if r < 0x8000_0000_0000_0000 then r else r - 0x1_0000_0000_0000_0000
  }

  /** The remainder with the sign of `a`. */
  function TruncatedRemainder(a: int, m: nat): int
    requires m > 0
  {
    if a < 0 then -(-a % m) else a % m
  }

  /** How the source reads a signed operand of `w` bits out of 64: on a value of more than `w` bits this is not
    the two's complement of the lower ones. */
  function SignedOperand(v: nat, w: nat): int {
    var i := Wrapped64(v);
    if w >= 64 then i
    else TruncatedRemainder(if w > 0 && TopBit(Low(v, w), w - 1) == 1 then Wrapped64(i - Pow2(w)) else i, Pow2(w))
  }

  /** Division that truncates toward zero. */
  function TruncatedQuotient(a: int, b: int): int
    requires b != 0
  {
    var q := (if a < 0 then -a else a) / (if b < 0 then -b else b);
    if (a < 0) == (b < 0) then q else -q
  }

  /** Rounds toward minus infinity, as an arithmetic shift does. */
  function ShiftedRightSigned(a: int, b: nat): int {
    if a >= 0 then Shr(a, b) else -1 - Shr(-1 - a, b)
  }

  /** Operations whose result has the size of the operands, before truncation. Division, remainder and shifts
    read all 64 bits of an operand. */
  function Value2(op: BinaryOp, a: nat, b: nat, w: nat): Option<nat> {
    match op
    case Add => Some(a + b)
    case Subtract => Some(Low(a, w) + Pow2(w) - Low(b, w))
    case Multiply => Some(a * b)
    case DivideUnsigned => if b == 0 || Low(b, w) == 0 then None else Some(a / b)
    case DivideSigned => if b == 0 || SignedOperand(b, w) == 0 then None
                         else Some(Unsigned(TruncatedQuotient(SignedOperand(a, w), SignedOperand(b, w)), w))
    case Modulo => if b == 0 then None else Some(a % b)
    case ShiftLeft => Some(Shl(a, b % 64))
    case ShiftRightUnsigned => Some(if b >= w then 0 else Shr(a, b))
    case ShiftRightSigned => Some(Unsigned(ShiftedRightSigned(SignedOperand(a, w), if b >= w then w else b), w))
    case And => Some(Bitwise(AndBits, Low(a, w), Low(b, w)))
    case InclusiveOr => Some(Bitwise(OrBits, Low(a, w), Low(b, w)))
    case ExclusiveOr => Some(Bitwise(XorBits, Low(a, w), Low(b, w)))
    case _ => None
  }

  /** Signed `<=` with the masks of the source: the sign bits decide if they differ, else the other bits. On
    64 bits `signMask` is empty and `mask` has all bits. */
  function SignedLessOrEqual(a: nat, b: nat, w: nat): bool {
    var mask := if 0 < w < 64 then Pow2(w - 1) - 1 else Pow2(64) - 1;
    var signMask := if 0 < w < 64 then Pow2(w - 1) else 0;
    var signA, signB := Bitwise(AndBits, a, signMask), Bitwise(AndBits, b, signMask);
    if Bitwise(XorBits, signA, signB) != 0 then signA != 0
    else Bitwise(AndBits, a, mask) <= Bitwise(AndBits, b, mask)
  }

  /** Comparisons. */
  function Compare(op: BinaryOp, a: nat, b: nat, w: nat): Option<bool> {
    match op
    case Equal => Some(Low(a, w) == Low(b, w))
    case LessOrEqualUnsigned => Some(Low(a, w) <= Low(b, w))
    case LessOrEqualSigned => Some(SignedLessOrEqual(a, b, w))
    case LessUnsigned => Some(Low(a, w) < Low(b, w))
    case LessSigned => Some(SignedOperand(a, w) < SignedOperand(b, w))
    case _ => None
  }

  /** `Select`: the bits of `a` below `offset` and from `offset + width` on, with all of `b` shifted in between. */
  function Selected(a: nat, b: nat, offset: nat, width: nat): nat {
    var low, high := Low(a, offset), Shl(Shr(a, offset + width), offset + width);
    Bitwise(OrBits, Bitwise(OrBits, low, Low(Shl(b, offset), 64)), high)
  }

  /** `il::execute` on two constants of at most 64 bits; None stands for `?`. */
  function Execute2(op: BinaryOp, x: Const, y: Const): Option<Const> {
    var w := Width(x.size);
    match Compare(op, x.value, y.value, w)
    case Some(truth) => Truth(truth)
    case None =>
      if op.Select? then
        if op.offset + y.size < 64 then Some(Const(Selected(x.value, y.value, op.offset, y.size), x.size)) else None
      else
        match Value2(op, x.value, y.value, w)
        case Some(v) => Some(Const(Low(v, w), x.size))
        case None => None
  }

  /** Extending a negative value to fewer bits than it has leaves it as it is. */
  function ExtendedTo(v: nat, w: nat, t: nat): nat
    requires v < Pow2(w)
  {
    if t < w < 64 && Signed(v, w) < 0 then v else Unsigned(Signed(v, w), t)
  }

  /** `il::execute` on one constant. */
  function Execute1(op: UnaryOp, x: Const): Option<Const> {
    var w := Width(x.size);
    var v := Low(x.value, w);
    match op
    case ZeroExtend(t) => Some(Const(Low(v, Width(t)), t))
    case SignExtend(t) => Some(Const(ExtendedTo(v, w, Width(t)), t))
    case Move => Some(Const(v, x.size))
    case Call => None
    case Load(_, _, _) => None
  }

  // ----- Operands within their size -----

  /** The value has no bit beyond its size. */
  predicate Reduced(c: Const) {
    c.value < Pow2(Width(c.size))
  }

  lemma SmallRemainder(a: int, m: nat)
    requires 0 < a + m && a < m
    ensures TruncatedRemainder(a, m) == a
  {
    var b := if a < 0 then -a else a;
    QuotientIs(b, m, 0, b);
  }

  lemma WrapsOnce(v: int)
    requires -0x8000_0000_0000_0000 <= v < 0x1_0000_0000_0000_0000
    ensures Wrapped64(v) == if v < 0x8000_0000_0000_0000 then v else v - 0x1_0000_0000_0000_0000
  {
  }

  /** On an operand within its size the reading is two's complement. */
  lemma SignedOperandReduced(v: nat, w: nat)
    requires w <= 64 && v < Pow2(w)
    ensures SignedOperand(v, w) == Signed(v, w)
  {
    hide Pow2, Low, TruncatedRemainder, Wrapped64;
    LowOfSmall(v, w);
    Powers();
    PowMonotone(w, 64);
    WrapsOnce(v);
    NextPower(63);
    if w < 64 {
      PowMonotone(w, 63);
      if w > 0 { NextPower(w - 1); }
      WrapsOnce(v - Pow2(w));
      SmallRemainder(Signed(v, w), Pow2(w));
    }
  }

  /** Every result but that of Select is within its size. */
  lemma BinaryReduces(op: BinaryOp, x: Const, y: Const)
    requires Execute2(op, x, y).Some? && !op.Select?
    ensures Reduced(Execute2(op, x, y).value)
  {
    hide Bitwise, Shl, SignedLessOrEqual, SignedOperand, Value2;
    Powers();
  }

  /** So is every result of one operand, but that of extending a negative value to fewer bits than it has. */
  lemma UnaryReducesIff(op: UnaryOp, x: Const)
    requires Execute1(op, x).Some?
    ensures var w := Width(x.size);
            Reduced(Execute1(op, x).value) <==>
            !(op.SignExtend? && Width(op.width) < w < 64 && Signed(Low(x.value, w), w) < 0)
  {
    hide Pow2, Low;
    var w := Width(x.size);
    if op.SignExtend? && Width(op.width) < w {
      PowMonotone(Width(op.width), w - 1);
      NextPower(w - 1);
    }
  }

  lemma ShlBelow(b: nat, width: nat, offset: nat)
    requires b < Pow2(width)
    ensures Shl(b, offset) < Pow2(width + offset)
    decreases offset
  {
    if offset > 0 { ShlBelow(b, width, offset - 1); }
  }

  lemma {:induction false} ShlTwice(p: nat, m: nat, n: nat)
    ensures Shl(Shl(p, m), n) == Shl(p, n + m)
  {
    if n > 0 { ShlTwice(p, m, n - 1); }
  }

  /** Select on a second operand within its size replaces `width` bits of the first. */
  lemma SelectReplaces(a: nat, b: nat, offset: nat, width: nat)
    requires offset + width < 64 && b < Pow2(width)
    ensures Selected(a, b, offset, width) ==
            Shl(Shl(Shr(a, offset + width), width) + b, offset) + Low(a, offset)
  {
    hide Pow2, Low, Shr, Shl, Bitwise;
    var high, low := Shr(a, offset + width), Low(a, offset);
    ShlBelow(b, width, offset);
    PowMonotone(width + offset, 64);
    LowOfSmall(Shl(b, offset), 64);
    ShlBit(offset);
    BitwiseSplit(OrBits, low, Shl(b, offset), 0, low, b, 0, offset);
    OrZero(b);
    OrZero(low);
    ShlTwice(high, width, offset);
    ShlBit(width);
    BitwiseSplit(OrBits, b, Shl(high, width), 0, b, high, 0, width);
    OrZero(high);
    BitwiseSplit(OrBits, Shl(b, offset) + low, Shl(high, offset + width), b, low, Shl(high, width), 0, offset);
  }

  /** Division reads bits beyond the size of its operands: of 16 bits, 0x10000 / 2 is 0x8000, not 0 / 2. */
  lemma DivisionReadsUpperBits()
    ensures Execute2(DivideUnsigned, Const(0x1_0000, 16), Const(2, 16)) == Some(Const(0x8000, 16))
    ensures Execute2(DivideUnsigned, Const(0, 16), Const(2, 16)) == Some(Const(0, 16))
  {
    hide Pow2, Low;
    Powers();
    LowOfSmall(2, 16);
    LowOfSmall(0, 16);
    LowOfSmall(0x8000, 16);
  }

  /** The bit operation behind a RREIL operation. */
  predicate BitwiseOp(op: BinaryOp, bits: BitOp) {
    || (op == And && bits == AndBits)
    || (op == InclusiveOr && bits == OrBits)
    || (op == ExclusiveOr && bits == XorBits)
  }

  lemma ExecuteBits(op: BinaryOp, bits: BitOp, x: nat, y: nat, w: nat)
    requires BitwiseOp(op, bits)
    requires w <= 64 && x < Pow2(w) && y < Pow2(w)
    ensures Execute2(op, Const(x, w), Const(y, w)) == Some(Const(Bitwise(bits, x, y), w))
    ensures Bitwise(bits, x, y) < Pow2(w)
  {
    hide Bitwise, Low, Signed, SignedLessOrEqual;
    LowOfSmall(x, w);
    LowOfSmall(y, w);
    BitwiseBound(bits, x, y, w);
    LowOfSmall(Bitwise(bits, x, y), w);
  }

  /** What the comparisons mean on operands within their size. */
  predicate Holds(op: BinaryOp, x: nat, y: nat, w: nat)
    requires x < Pow2(w) && y < Pow2(w)
  {
    match op
    case Equal => x == y
    case LessUnsigned => x < y
    case _ => Signed(x, w) < Signed(y, w)
  }

  lemma ExecuteCompare(op: BinaryOp, x: nat, y: nat, w: nat)
    requires op == Equal || op == LessUnsigned || op == LessSigned
    requires w <= 64 && x < Pow2(w) && y < Pow2(w)
    ensures Execute2(op, Const(x, w), Const(y, w)) == Truth(Holds(op, x, y, w))
  {
    hide Low, SignedOperand, Signed, Pow2;
    LowOfSmall(x, w);
    LowOfSmall(y, w);
    SignedOperandReduced(x, w);
    SignedOperandReduced(y, w);
  }

  lemma ExecuteValue(op: BinaryOp, x: nat, y: nat, w: nat, v: nat, r: nat)
    requires w <= 64
    requires Compare(op, x, y, w) == None && !op.Select? && Value2(op, x, y, w) == Some(v) && Low(v, w) == r
    ensures Execute2(op, Const(x, w), Const(y, w)) == Some(Const(r, w))
  {
  }

  function Wrapped(v: int, w: nat): int {
    if v < 0 then v + Pow2(w) else if v < Pow2(w) then v else v - Pow2(w)
  }

  lemma ValueOfAdd(x: nat, y: nat, w: nat, v: nat, r: nat)
    requires x < Pow2(w) && y < Pow2(w) && v == x + y && r == Wrapped(x + y, w)
    ensures Value2(Add, x, y, w) == Some(v) && Low(v, w) == r < Pow2(w)
  {
    LowOfSum(v, w);
  }

  lemma ExecuteAdd(x: nat, y: nat, w: nat, r: nat)
    requires w <= 64 && x < Pow2(w) && y < Pow2(w) && r == Wrapped(x + y, w)
    ensures r < Pow2(w) && Execute2(Add, Const(x, w), Const(y, w)) == Some(Const(r, w))
  {
    var v := x + y;
    ValueOfAdd(x, y, w, v, r);
    ExecuteValue(Add, x, y, w, v, r);
  }

  lemma ValueOfSubtract(x: nat, y: nat, w: nat, v: nat, r: nat)
    requires x < Pow2(w) && y < Pow2(w) && v == x + Pow2(w) - y && r == Wrapped(x - y, w)
    ensures Value2(Subtract, x, y, w) == Some(v) && Low(v, w) == r < Pow2(w)
  {
    LowOfSmall(x, w);
    LowOfSmall(y, w);
    LowOfSum(v, w);
  }

  lemma ExecuteSubtract(x: nat, y: nat, w: nat, r: nat)
    requires w <= 64 && x < Pow2(w) && y < Pow2(w) && r == Wrapped(x - y, w)
    ensures r < Pow2(w) && Execute2(Subtract, Const(x, w), Const(y, w)) == Some(Const(r, w))
  {
    var v := x + Pow2(w) - y;
    ValueOfSubtract(x, y, w, v, r);
    ExecuteValue(Subtract, x, y, w, v, r);
  }

  /** The sign mask selects the top bit, the other mask the bits below it. */
  lemma MaskedBits(a: nat, k: nat)
    requires a < Pow2(k + 1)
    ensures var top := TopBit(a, k) * Pow2(k);
            top <= a && Bitwise(AndBits, a, Pow2(k)) == top && Bitwise(AndBits, a, Pow2(k) - 1) == a - top
  {
    hide Bitwise, Shl;
    var t := TopBit(a, k);
    var q := if t == 1 then a - Pow2(k) else a;
    assert q < Pow2(k);
    ShlBit(k);
    BitwiseSplit(AndBits, a, Pow2(k), t, q, 1, 0, k);
    BitwiseSplit(AndBits, a, Pow2(k) - 1, t, q, 0, Pow2(k) - 1, k);
    BitwiseOfBits(AndBits, t, 1);
    AndZero(t);
    AndZero(q);
    AndOnes(q, k);
  }

  lemma {:induction false} XorZero(x: nat)
    ensures Bitwise(XorBits, x, 0) == x && Bitwise(XorBits, 0, x) == x && Bitwise(XorBits, x, x) == 0
  {
    if x > 0 {
      BitwiseStep(XorBits, x, 0);
      BitwiseStep(XorBits, 0, x);
      BitwiseStep(XorBits, x, x);
      XorZero(x / 2);
    }
  }

  /** Below 64 bits the masks give the signed order. */
  lemma SignedOrderBelow64Bits(a: nat, b: nat, w: nat)
    requires 0 < w < 64 && a < Pow2(w) && b < Pow2(w)
    ensures SignedLessOrEqual(a, b, w) <==> Signed(a, w) <= Signed(b, w)
  {
    hide Bitwise, Shl;
    MaskedBits(a, w - 1);
    MaskedBits(b, w - 1);
    var p := Pow2(w - 1);
    XorZero(0);
    XorZero(p);
    assert TopBit(a, w - 1) * p == if TopBit(a, w - 1) == 1 then p else 0;
    assert TopBit(b, w - 1) * p == if TopBit(b, w - 1) == 1 then p else 0;
  }

  /** On 64 bits they give the unsigned order, which is right exactly when the operands have the same sign. */
  lemma SignedOrderOn64Bits(a: nat, b: nat)
    requires a < Pow2(64) && b < Pow2(64)
    ensures SignedLessOrEqual(a, b, 64) <==> a <= b
    ensures (SignedLessOrEqual(a, b, 64) <==> Signed(a, 64) <= Signed(b, 64)) <==> TopBit(a, 63) == TopBit(b, 63)
  {
    hide Bitwise, Pow2;
    AndZero(a);
    AndZero(b);
    XorZero(0);
    AndOnes(a, 64);
    AndOnes(b, 64);
    assert Pow2(64) == 2 * Pow2(63) by { NextPower(63); }
  }

  /** The smallest 64-bit number is not found to be at most 0. */
  lemma SmallestNotBelowZero()
    ensures var min := 0x8000_0000_0000_0000;
            && min < Pow2(64) && Signed(min, 64) == -min
            && Execute2(LessOrEqualSigned, Const(min, 64), Const(0, 64)) == Truth(false)
  {
    hide Bitwise, Pow2, Low, SignedLessOrEqual;
    Powers();
    NextPower(63);
    SignedOrderOn64Bits(0x8000_0000_0000_0000, 0);
  }

  // ----- The machine -----

  /** Variables, memory bytes, and what reading `?` gives. */
  datatype Machine<N> = Machine(regs: map<N, nat>, mem: map<nat, nat>, junk: nat)

  function Get<N>(st: Machine<N>, n: N): nat {
    if n in st.regs then st.regs[n] else 0
  }

  function Eval<N>(st: Machine<N>, rv: Rvalue<N>): Const {
    match rv
    case Undefined => Const(st.junk, 64)
    case Variable(n, _, offset, size) => Const(Low(Shr(Get(st, n), offset), size), size)
    case Constant(c) => Const(Low(c.value, Width(c.size)), c.size)
  }

  function Assign<N>(st: Machine<N>, lv: Lvalue<N>, v: nat): Machine<N> {
    match lv
    case NoValue => st
    case Target(n, _, size) => st.(regs := st.regs[n := Low(v, size)])
  }

  /** A variable keeps the bits of its size, and no other variable changes. */
  lemma AssignMeans<N(!new)>(st: Machine<N>, n: N, k: Option<nat>, size: nat, v: nat)
    ensures var st' := Assign(st, Target(n, k, size), v);
            && Get(st', n) == v % Pow2(size) && st'.mem == st.mem && st'.junk == st.junk
            && forall m :: m != n ==> Get(st', m) == Get(st, m)
  {
    hide Low, Pow2;
    LowIsRemainder(v, size, Pow2(size));
  }

  const ADDRESSES: nat := 0x1_0000_0000_0000_0000

  function MemAt(mem: map<nat, nat>, a: nat): nat {
    if a % ADDRESSES in mem then mem[a % ADDRESSES] % 256 else 0
  }

  /** `n` bytes starting at `a`, least significant first. */
  function LoadLittle(mem: map<nat, nat>, a: nat, n: nat): nat
    decreases n
  {
    if n == 0 then 0 else MemAt(mem, a) + 256 * LoadLittle(mem, a + 1, n - 1)
  }

  function StoreLittle(mem: map<nat, nat>, a: nat, v: nat, n: nat): map<nat, nat>
    decreases n
  {
    if n == 0 then mem else StoreLittle(mem[a % ADDRESSES := v % 256], a + 1, v / 256, n - 1)
  }

  function LoadBig(mem: map<nat, nat>, a: nat, n: nat): nat {
    if n == 0 then 0 else MemAt(mem, a + n - 1) + 256 * LoadBig(mem, a, n - 1)
  }

  function StoreBig(mem: map<nat, nat>, a: nat, v: nat, n: nat): map<nat, nat>
    decreases n
  {
    if n == 0 then mem else StoreBig(mem[(a + n - 1) % ADDRESSES := v % 256], a, v / 256, n - 1)
  }

  function OrJunk<N>(st: Machine<N>, r: Option<Const>): nat {
    match r case Some(c) => c.value case None => st.junk
  }

  /** The value of an operation that does not touch memory. */
  function Result<N>(st: Machine<N>, op: Operation<Rvalue<N>>): nat {
    match op
    case Binary(o, a, b) => OrJunk(st, Execute2(o, Eval(st, a), Eval(st, b)))
    case Unary(o, a) => OrJunk(st, Execute1(o, Eval(st, a)))
    case Initialize(_, _) => st.junk
    case Phi(_) => st.junk
  }

  function StoreStep<N>(st: Machine<N>, endianess: Endianess, bits: nat, ptr: Rvalue<N>, val: Rvalue<N>): Machine<N> {
    var a, v := Eval(st, ptr).value, Eval(st, val).value;
    st.(mem := match endianess
               case Little => StoreLittle(st.mem, a, v, bits / 8)
               case Big => StoreBig(st.mem, a, v, bits / 8))
  }

  function Loaded<N>(st: Machine<N>, endianess: Endianess, bits: nat, ptr: Rvalue<N>): nat {
    var a := Eval(st, ptr).value;
    match endianess
    case Little => LoadLittle(st.mem, a, bits / 8)
    case Big => LoadBig(st.mem, a, bits / 8)
  }

  /** Executes one statement. */
  function Step<N>(st: Machine<N>, s: Statement<N>): Machine<N> {
    if s.op.Binary? && s.op.bop.Store? then StoreStep(st, s.op.bop.endianess, s.op.bop.bits, s.op.left, s.op.right)
    else if s.op.Unary? && s.op.uop.Load? then
      Assign(st, s.assignee, Loaded(st, s.op.uop.endianess, s.op.uop.bits, s.op.arg))
    else Assign(st, s.assignee, Result(st, s.op))
  }

  function Set<N>(st: Machine<N>, n: N, v: nat): Machine<N> {
    st.(regs := st.regs[n := v])
  }

  /** Assigning a result that fits its destination. */
  lemma StepBinary<N>(st: Machine<N>, op: BinaryOp, n: N, w: nat, a: Rvalue<N>, b: Rvalue<N>, r: Const)
    requires !op.Store? && Execute2(op, Eval(st, a), Eval(st, b)) == Some(r) && r.value < Pow2(w)
    ensures Step(st, Statement(Target(n, None, w), Binary(op, a, b))) == Set(st, n, r.value)
  {
    LowOfSmall(r.value, w);
  }

  lemma StepUnary<N>(st: Machine<N>, op: UnaryOp, n: N, w: nat, a: Rvalue<N>, r: Const)
    requires !op.Load? && Execute1(op, Eval(st, a)) == Some(r) && r.value < Pow2(w)
    ensures Step(st, Statement(Target(n, None, w), Unary(op, a))) == Set(st, n, r.value)
  {
    LowOfSmall(r.value, w);
  }

  function Exec<N>(st: Machine<N>, stmts: seq<Statement<N>>): Machine<N>
    decreases |stmts|
  {
    if stmts == [] then st else Exec(Step(st, stmts[0]), stmts[1..])
  }

  lemma {:induction false} ExecAppend<N>(st: Machine<N>, xs: seq<Statement<N>>, ys: seq<Statement<N>>)
    ensures Exec(st, xs + ys) == Exec(Exec(st, xs), ys)
    decreases |xs|
  {
    if xs == [] {
      assert xs + ys == ys;
    } else {
      assert (xs + ys)[1..] == xs[1..] + ys;
      ExecAppend(Step(st, xs[0]), xs[1..], ys);
    }
  }

  lemma Exec1<N>(st: Machine<N>, a: Statement<N>)
    ensures Exec(st, [a]) == Step(st, a)
  {
    assert [a][1..] == [];
  }

  lemma Exec2<N>(st: Machine<N>, a: Statement<N>, b: Statement<N>)
    ensures Exec(st, [a, b]) == Step(Step(st, a), b)
  {
    assert [a, b] == [a] + [b];
    ExecAppend(st, [a], [b]);
    Exec1(st, a);
    Exec1(Step(st, a), b);
  }

  lemma Exec3<N>(st: Machine<N>, a: Statement<N>, b: Statement<N>, c: Statement<N>)
    ensures Exec(st, [a, b, c]) == Step(Step(Step(st, a), b), c)
  {
    assert [a, b, c] == [a, b] + [c];
    ExecAppend(st, [a, b], [c]);
    Exec2(st, a, b);
    Exec1(Step(Step(st, a), b), c);
  }

  lemma Exec4<N>(st: Machine<N>, a: Statement<N>, b: Statement<N>, c: Statement<N>, d: Statement<N>)
    ensures Exec(st, [a, b, c, d]) == Step(Step(Step(Step(st, a), b), c), d)
  {
    assert [a, b, c, d] == [a, b] + [c, d];
    ExecAppend(st, [a, b], [c, d]);
    Exec2(st, a, b);
    Exec2(Step(Step(st, a), b), c, d);
  }
}
