/** PUSH and POP (amd64/src/semantic.rs:1589-1625, 1643-1674). */
module Stack {
  import opened Bits
  import opened Il
  import opened Rreil
  import opened Registers
  import opened Arithmetic
  import Widths

  const RSP: Rvalue<Name> := Var(Reg(SP, R64), 64)

  // ----- The code generator -----

  /** An operand as 64 bits: extended or cut into `res` if it has another size. */
  function Sized(a: Rvalue<Name>): (seq<Stmt>, Rvalue<Name>) {
    match SizeOf(a)
    case None => ([], a)
    case Some(sz) =>
      if sz < 64 then ([Do1(SignExtend(64), To(Temp(Res), 64), a)], Var(Temp(Res), 64))
      else if sz > 64 then ([Do1(Move, To(Temp(Res), 64), Extract(a, 64))], Var(Temp(Res), 64))
      else ([], a)
  }

  function PushCode(a: Rvalue<Name>): seq<Stmt> {
    var (stmts, a) := Sized(a);
    stmts +
    [Do2(Subtract, To(Temp(TempName.Stack), 64), RSP, Imm(8, 64)),
     Statement(NoValue, Binary(Store("RAM", Little, 64), Var(Temp(TempName.Stack), 64), a))] +
    WriteReg(RSP, Var(Temp(TempName.Stack), 64)).value
  }

  /** None stands for the error on operands that cannot be written. */
  function PopCode(a: Rvalue<Name>): Option<seq<Stmt>> {
    if !a.Variable? || a.offset != 0 then None
    else
      var (stmts, a) := Sized(a);
      match WriteReg(a, Var(Temp(Val), 64))
      case None => None
      case Some(write) =>
        Some(stmts +
             [Do1(Move, To(Temp(TempName.Stack), 64), RSP),
              Do1(Load("RAM", Little, 64), To(Temp(Val), 64), Var(Temp(TempName.Stack), 64)),
              Do2(Add, To(Temp(TempName.Stack), 64), RSP, Imm(8, 64))] +
             write + WriteReg(RSP, Var(Temp(TempName.Stack), 64)).value)
  }

  // ----- Memory -----

  /** Address arithmetic wraps around. */
  function Addr(x: int): nat {
    x % ADDRESSES
  }

  lemma Distinct(a: int, d: int)
    requires 0 < d < ADDRESSES
    ensures (a + d) % ADDRESSES != a % ADDRESSES
  {
  }

  /** The `n` bytes from `a` on do not include `b`. */
  ghost predicate Clear(a: nat, n: nat, b: nat)
    decreases n
  {
    n == 0 || (a % ADDRESSES != b % ADDRESSES && Clear(a + 1, n - 1, b))
  }

  lemma {:induction false} StoreElsewhere(mem: map<nat, nat>, a: nat, v: nat, n: nat, b: nat)
    requires Clear(a, n, b)
    ensures MemAt(StoreLittle(mem, a, v, n), b) == MemAt(mem, b)
    decreases n
  {
    if n > 0 { StoreElsewhere(mem[a % ADDRESSES := v % 256], a + 1, v / 256, n - 1, b); }
  }

  /** `b` lies `d` bytes before `a`, and the bytes from `a` on do not reach around to it. */
  lemma {:induction false} ClearAfter(a: nat, n: nat, b: nat, d: int)
    requires (b + d) % ADDRESSES == a % ADDRESSES && 0 < d && d + n <= ADDRESSES
    ensures Clear(a, n, b)
    decreases n
  {
    if n > 0 {
      Distinct(b, d);
      ClearAfter(a + 1, n - 1, b, d + 1);
    }
  }

  /** `Pow2(8 * n)`. */
  function Values(n: nat): nat {
    if n == 0 then 1 else 256 * Values(n - 1)
  }

  lemma {:induction false} LoadStored(mem: map<nat, nat>, a: nat, v: nat, n: nat)
    requires v < Values(n) && n <= ADDRESSES
    ensures LoadLittle(StoreLittle(mem, a, v, n), a, n) == v
    decreases n
  {
    if n > 0 {
      var mem1 := mem[a % ADDRESSES := v % 256];
      LoadStored(mem1, a + 1, v / 256, n - 1);
      ClearAfter(a + 1, n - 1, a, 1);
      StoreElsewhere(mem1, a + 1, v / 256, n - 1, a);
    }
  }

  /** Byte `i` of `v`, counted from the least significant one. */
  function ByteOf(v: nat, i: nat): nat
    decreases i
  {
    if i == 0 then v % 256 else ByteOf(v / 256, i - 1)
  }

  /** Little-endian: the least significant byte comes first. */
  lemma {:induction false} LittleBytes(mem: map<nat, nat>, a: nat, v: nat, n: nat, i: nat)
    requires i < n <= ADDRESSES
    ensures MemAt(StoreLittle(mem, a, v, n), a + i) == ByteOf(v, i)
    decreases n
  {
    var mem1 := mem[a % ADDRESSES := v % 256];
    if i == 0 {
      ClearAfter(a + 1, n - 1, a, 1);
      StoreElsewhere(mem1, a + 1, v / 256, n - 1, a);
    } else {
      LittleBytes(mem1, a + 1, v / 256, n - 1, i - 1);
    }
  }

  lemma {:induction false} ClearLast(a: nat, n: nat, b: nat)
    requires Clear(a, n, b) && n > 0
    ensures Clear(a, n - 1, b) && (a + n - 1) % ADDRESSES != b % ADDRESSES
    decreases n
  {
    if n > 1 { ClearLast(a + 1, n - 1, b); }
  }

  lemma {:induction false} BigElsewhere(mem: map<nat, nat>, a: nat, v: nat, n: nat, b: nat)
    requires Clear(a, n, b)
    ensures MemAt(StoreBig(mem, a, v, n), b) == MemAt(mem, b)
    decreases n
  {
    if n > 0 {
      ClearLast(a, n, b);
      BigElsewhere(mem[(a + n - 1) % ADDRESSES := v % 256], a, v / 256, n - 1, b);
    }
  }

  lemma {:induction false} ClearBefore(a: nat, n: nat, d: nat)
    requires d + n < ADDRESSES
    ensures Clear(a, n, a + n + d)
    decreases n
  {
    if n > 0 {
      Distinct(a, n + d);
      ClearBefore(a + 1, n - 1, d);
    }
  }

  /** Big-endian: the most significant byte comes first, and loading gives the value back. */
  lemma {:induction false} BigBytes(mem: map<nat, nat>, a: nat, v: nat, n: nat, i: nat)
    requires i < n <= ADDRESSES
    ensures MemAt(StoreBig(mem, a, v, n), a + i) == ByteOf(v, n - 1 - i)
    decreases n
  {
    var mem1 := mem[(a + n - 1) % ADDRESSES := v % 256];
    if i == n - 1 {
      ClearBefore(a, n - 1, 0);
      BigElsewhere(mem1, a, v / 256, n - 1, a + n - 1);
    } else {
      BigBytes(mem1, a, v / 256, n - 1, i);
    }
  }

  lemma {:induction false} LoadStoredBig(mem: map<nat, nat>, a: nat, v: nat, n: nat)
    requires v < Values(n) && n <= ADDRESSES
    ensures LoadBig(StoreBig(mem, a, v, n), a, n) == v
    decreases n
  {
    if n > 0 {
      hide MemAt;
      LoadStoredBig(mem[(a + n - 1) % ADDRESSES := v % 256], a, v / 256, n - 1);
      BigBytes(mem, a, v, n, n - 1);
    }
  }

  ghost predicate SameBytes(mem: map<nat, nat>, mem': map<nat, nat>, a: nat, n: nat)
    decreases n
  {
    n == 0 || (MemAt(mem', a) == MemAt(mem, a) && SameBytes(mem, mem', a + 1, n - 1))
  }

  lemma {:induction false} LoadSame(mem: map<nat, nat>, mem': map<nat, nat>, a: nat, n: nat)
    requires SameBytes(mem, mem', a, n)
    ensures LoadLittle(mem', a, n) == LoadLittle(mem, a, n)
    decreases n
  {
    if n > 0 { LoadSame(mem, mem', a + 1, n - 1); }
  }

  lemma {:induction false} LoadBound(mem: map<nat, nat>, a: nat, n: nat)
    ensures LoadLittle(mem, a, n) < Values(n)
    decreases n
  {
    if n > 0 { LoadBound(mem, a + 1, n - 1); }
  }

  lemma EightBytes()
    ensures Values(8) == Pow2(64) == ADDRESSES
  {
    hide Pow2;
    Powers();
  }

  // ----- One push, one pop -----

  /** Nothing but registers of the given families and temporaries changes. */
  ghost predicate Keeps(st: Cpu, st': Cpu, fs: set<Family>) {
    && (forall n: Name :: !n.Reg? && !n.Temp? ==> Get(st', n) == Get(st, n))
    && (forall g :: g !in fs ==> R(st', g) == R(st, g))
  }

  lemma StackPointer(st: Cpu, sub: bool, sp: nat)
    requires R(st, SP) == sp < ADDRESSES
    ensures var v := Addr(if sub then sp - 8 else sp + 8);
            Step(st, Do2(if sub then Subtract else Add, To(Temp(TempName.Stack), 64), RSP, Imm(8, 64))) ==
            Set(st, Temp(TempName.Stack), v)
  {
    hide Eval, Step, Execute2, Get, Set, Pow2;
    Powers();
    ReadWhole(st, Reg(SP, R64), 64);
    EvalImm(st, 8, 64);
    StepSum(st, sub, Temp(TempName.Stack), RSP, Imm(8, 64), sp, 8, 64);
  }

  lemma CoherentFrame(st: Cpu, st': Cpu)
    requires AllCoherent(st) && forall n: Name :: n.Reg? ==> Get(st', n) == Get(st, n)
    ensures AllCoherent(st') && forall f :: R(st', f) == R(st, f)
  {
    hide Get, PartOf;
    forall f ensures Coherent(st', f) { assert Coherent(st, f); }
  }

  lemma StoreStepIs(st: Cpu, a: Rvalue<Name>, p: nat, v: nat)
    requires Eval(st, Var(Temp(TempName.Stack), 64)) == Const(p, 64) && Eval(st, a) == Const(v, 64)
    ensures Step(st, Statement(NoValue, Binary(Store("RAM", Little, 64), Var(Temp(TempName.Stack), 64), a))) ==
            st.(mem := StoreLittle(st.mem, p, v, 8))
  {
    hide Eval, StoreLittle;
  }

  function Push(st: Cpu, f: Family): Cpu {
    Exec(st, PushCode(Var(Reg(f, R64), 64)))
  }

  /** The two statements that move the pointer into `stack` and store there. */
  lemma PushStore(st: Cpu, a: Rvalue<Name>, v: nat, p: nat, s2: Cpu)
    requires AllCoherent(st) && p == Addr(R(st, SP) - 8)
    requires Eval(st, a) == Const(v, 64) && !a.Undefined? && (a.Variable? ==> a.name != Temp(TempName.Stack))
    requires s2 == Exec(st, [Do2(Subtract, To(Temp(TempName.Stack), 64), RSP, Imm(8, 64)),
                             Statement(NoValue, Binary(Store("RAM", Little, 64), Var(Temp(TempName.Stack), 64), a))])
    ensures s2.mem == StoreLittle(st.mem, p, v, 8) && Get(s2, Temp(TempName.Stack)) == p
    ensures forall n :: n != Temp(TempName.Stack) ==> Get(s2, n) == Get(st, n)
  {
    hide Exec, Eval, Step, Execute2, Get, Set, Pow2, StoreLittle, Addr, Coherent;
    var stack := Temp(TempName.Stack);
    var sub := Do2(Subtract, To(stack, 64), RSP, Imm(8, 64));
    var store := Statement(NoValue, Binary(Store("RAM", Little, 64), Var(stack, 64), a));
    Exec2(st, sub, store);
    Bounded(st, SP);
    StackPointer(st, true, R(st, SP));
    var s1 := Set(st, stack, p);
    SetSets(st, stack, p);
    EightBytes();
    AddrBound(R(st, SP) - 8);
    ReadWhole(s1, stack, 64);
    SameRead(st, s1, a);
    StoreStepIs(s1, a, p, v);
    MemoryOnly(s1, s2);
  }

  lemma SameRead(st: Cpu, st': Cpu, a: Rvalue<Name>)
    requires !a.Undefined? && (a.Variable? ==> Get(st', a.name) == Get(st, a.name))
    ensures Eval(st', a) == Eval(st, a)
  {
    hide Get;
  }

  /** What a push stores for an operand of `w` bits and value `v`: 64 bits with the operand's sign, or its low 64. */
  function Pushed(v: nat, w: nat): nat
    requires w <= 64 ==> v < Pow2(w)
  {
    if w <= 64 then Unsigned(Signed(v, w), 64) else Low(v, 64)
  }

  lemma PushedWhole(v: nat)
    requires v < Pow2(64)
    ensures Pushed(v, 64) == v
  {
    hide Pow2, Low;
    Powers();
    Widths.SignExtendedIs(v, 64, 64);
  }

  /** The statements that bring the operand to 64 bits: then it reads as the value to be pushed. */
  lemma ExecSized(st: Cpu, a: Rvalue<Name>, w: nat, st': Cpu)
    requires 0 < w && HasSize(a, w) && (a.Variable? ==> !a.name.Temp?)
    requires st' == Exec(st, Sized(a).0)
    ensures w <= 64 ==> Eval(st, a).value < Pow2(w)
    ensures var a' := Sized(a).1;
            Eval(st', a') == Const(Pushed(Eval(st, a).value, w), 64) && !a'.Undefined?
            && (a'.Variable? ==> a'.name != Temp(TempName.Stack))
    ensures st'.mem == st.mem && forall n: Name :: !n.Temp? ==> Get(st', n) == Get(st, n)
  {
    hide Exec, Get, Pow2, Low, Shr, Step, Eval, Set, Pushed, Widths.SignExtended;
    if w < 64 {
      ValueFits(st, a, w);
      Widths.ExecSignExtend(st, Temp(Res), a, Eval(st, a).value, w, 64);
      PushedNarrow(Eval(st, a).value, w);
      ReadWhole(st', Temp(Res), 64);
    } else if w > 64 {
      var v := Low(Eval(st, a).value, 64);
      ExtractLow(st, a, w);
      Exec1(st, Do1(Move, To(Temp(Res), 64), Extract(a, 64)));
      StepMove(st, To(Temp(Res), 64), Extract(a, 64), v, 64);
      SetSets(st, Temp(Res), v);
      PushedWide(Eval(st, a).value, w);
      ReadWhole(st', Temp(Res), 64);
    } else {
      ValueFits(st, a, w);
      PushedWhole(Eval(st, a).value);
      assert st' == st by { ExecNothing(st); }
    }
  }

  lemma ExecNothing(st: Cpu)
    ensures Exec(st, []) == st
  {
  }

  lemma PushedNarrow(v: nat, w: nat)
    requires w <= 64 && v < Pow2(w)
    ensures Pushed(v, w) == Widths.SignExtended(v, w, 64)
  {
  }

  lemma PushedWide(v: nat, w: nat)
    requires w > 64
    ensures Pushed(v, w) == Low(v, 64)
  {
  }

  lemma ExtractLow(st: Cpu, a: Rvalue<Name>, w: nat)
    requires w > 64 && HasSize(a, w)
    ensures Eval(st, Extract(a, 64)) == Const(Low(Eval(st, a).value, 64), 64)
  {
    hide Low, Shr, Get, Pow2;
    match a
    case Variable(n, _, o, _) => LowLow(Shr(Get(st, n), o), w, 64);
    case Constant(c) => LowLow(c.value, 64, 64);
  }

  /** A push of any operand that is no temporary: its 64 bits lie below the old stack pointer, where the pointer
    now is, and everything else is as before. */
  lemma PushOperand(st: Cpu, a: Rvalue<Name>, w: nat, st': Cpu)
    requires AllCoherent(st) && 0 < w && HasSize(a, w) && (a.Variable? ==> !a.name.Temp?)
    requires st' == Exec(st, PushCode(a))
    ensures w <= 64 ==> Eval(st, a).value < Pow2(w)
    ensures AllCoherent(st') && R(st', SP) == Addr(R(st, SP) - 8) && Keeps(st, st', {SP})
    ensures st'.mem == StoreLittle(st.mem, R(st', SP), Pushed(Eval(st, a).value, w), 8)
    ensures LoadLittle(st'.mem, R(st', SP), 8) == Pushed(Eval(st, a).value, w)
  {
    hide Exec, Eval, Step, Get, Pow2, WriteReg, StoreLittle, LoadLittle, Addr, Coherent, Pushed, Sized;
    var stack, p := Temp(TempName.Stack), Addr(R(st, SP) - 8);
    var (sized, a') := Sized(a);
    var head := [Do2(Subtract, To(stack, 64), RSP, Imm(8, 64)),
                 Statement(NoValue, Binary(Store("RAM", Little, 64), Var(stack, 64), a'))];
    var write := WriteReg(RSP, Var(stack, 64));
    WriteSucceeds(RSP, Var(stack, 64));
    AddrBound(R(st, SP) - 8);
    ExecAppend(st, sized + head, write.value);
    ExecAppend(st, sized, head);
    var s1 := Exec(st, sized);
    ExecSized(st, a, w, s1);
    CoherentFrame(st, s1);
    var s2 := Exec(s1, head);
    var v := Pushed(Eval(st, a).value, w);
    PushStore(s1, a', v, p, s2);
    CoherentFrame(s1, s2);
    MovePointer(s2, p, st');
    PushedFits(Eval(st, a).value, w);
    EightBytes();
    LoadStored(st.mem, p, v, 8);
  }

  lemma PushedFits(v: nat, w: nat)
    requires w <= 64 ==> v < Pow2(w)
    ensures Pushed(v, w) < Pow2(64)
  {
  }

  /** A push stores the register below the stack pointer, and moves the pointer there. */
  lemma PushCorrect(st: Cpu, f: Family, st': Cpu)
    requires AllCoherent(st) && st' == Push(st, f)
    ensures AllCoherent(st') && R(st', SP) == Addr(R(st, SP) - 8) && Keeps(st, st', {SP})
    ensures st'.mem == StoreLittle(st.mem, Addr(R(st, SP) - 8), R(st, f), 8)
  {
    hide Exec, Eval, Get, Pow2, PushCode, StoreLittle, LoadLittle, Addr, Coherent, Pushed;
    Bounded(st, f);
    EightBytes();
    ReadWhole(st, Reg(f, R64), 64);
    PushOperand(st, Var(Reg(f, R64), 64), 64, st');
    PushedWhole(R(st, f));
  }

  /** push 0x80000000 with its 32-bit immediate stores 0xffffffff80000000. */
  lemma PushSignExtends(st: Cpu, st': Cpu)
    requires AllCoherent(st) && st' == Exec(st, PushCode(Imm(0x8000_0000, 32)))
    ensures LoadLittle(st'.mem, R(st', SP), 8) == 0xffff_ffff_8000_0000
  {
    hide Exec, Eval, Get, Pow2, PushCode, StoreLittle, LoadLittle, Addr, Coherent, Widths.SignExtended, Pushed;
    Powers();
    EvalImm(st, 0x8000_0000, 32);
    PushOperand(st, Imm(0x8000_0000, 32), 32, st');
    PushedNarrow(0x8000_0000, 32);
    Widths.SignExtendedIs(0x8000_0000, 32, 64);
    NextPower(31);
  }

  /** The stack pointer is written back. */
  lemma MovePointer(st: Cpu, p: nat, st': Cpu)
    requires AllCoherent(st) && Get(st, Temp(TempName.Stack)) == p < ADDRESSES
    requires st' == Exec(st, WriteReg(RSP, Var(Temp(TempName.Stack), 64)).value)
    ensures AllCoherent(st') && R(st', SP) == p && Keeps(st, st', {SP}) && st'.mem == st.mem
  {
    hide Exec, Eval, Get, Pow2, WriteReg, Coherent;
    EightBytes();
    ReadWhole(st, Temp(TempName.Stack), 64);
    CoherenceKept(st, SP, R64, Var(Temp(TempName.Stack), 64), st');
    WholeWrite(R(st, SP), p);
  }

  lemma AddrBound(x: int)
    ensures Addr(x) < ADDRESSES
  {
  }

  lemma Bounded(st: Cpu, f: Family)
    requires AllCoherent(st)
    ensures R(st, f) < ADDRESSES
  {
    assert Coherent(st, f);
  }

  lemma MemoryOnly(st: Cpu, st': Cpu)
    requires st'.regs == st.regs
    ensures forall n :: Get(st', n) == Get(st, n)
  {
  }

  lemma WholeWrite(r: nat, v: nat)
    ensures Written(R64, r, v) == v
  {
  }

  function Pop(st: Cpu, f: Family): Cpu {
    Exec(st, PopCode(Var(Reg(f, R64), 64)).value)
  }

  lemma LoadStepIs(st: Cpu, p: nat)
    requires Eval(st, Var(Temp(TempName.Stack), 64)) == Const(p, 64)
    ensures Step(st, Do1(Load("RAM", Little, 64), To(Temp(Val), 64), Var(Temp(TempName.Stack), 64))) ==
            Set(st, Temp(Val), LoadLittle(st.mem, p, 8))
  {
    hide Eval, LoadLittle, Pow2, Values;
    LoadBound(st.mem, p, 8);
    EightBytes();
    LowOfSmall(LoadLittle(st.mem, p, 8), 64);
  }

  /** The three statements that read the stack and advance the pointer in `stack`. */
  lemma PopLoad(st: Cpu, s3: Cpu)
    requires AllCoherent(st)
    requires s3 == Exec(st, [Do1(Move, To(Temp(TempName.Stack), 64), RSP),
                             Do1(Load("RAM", Little, 64), To(Temp(Val), 64), Var(Temp(TempName.Stack), 64)),
                             Do2(Add, To(Temp(TempName.Stack), 64), RSP, Imm(8, 64))])
    ensures s3.mem == st.mem && Get(s3, Temp(Val)) == LoadLittle(st.mem, R(st, SP), 8) < ADDRESSES
    ensures Get(s3, Temp(TempName.Stack)) == Addr(R(st, SP) + 8) < ADDRESSES
    ensures forall n: Name :: !n.Temp? ==> Get(s3, n) == Get(st, n)
  {
    hide Exec, Eval, Step, Execute2, Get, Set, Pow2, LoadLittle, Addr, Coherent, Values;
    var stack, sp := Temp(TempName.Stack), R(st, SP);
    var code := [Do1(Move, To(stack, 64), RSP), Do1(Load("RAM", Little, 64), To(Temp(Val), 64), Var(stack, 64)),
                 Do2(Add, To(stack, 64), RSP, Imm(8, 64))];
    Exec3(st, code[0], code[1], code[2]);
    Bounded(st, SP);
    EightBytes();
    ReadWhole(st, Reg(SP, R64), 64);
    StepMove(st, To(stack, 64), RSP, sp, 64);
    var s1 := Set(st, stack, sp);
    SetSets(st, stack, sp);
    ReadWhole(s1, stack, 64);
    LoadStepIs(s1, sp);
    LoadBound(st.mem, sp, 8);
    var v := LoadLittle(st.mem, sp, 8);
    var s2 := Set(s1, Temp(Val), v);
    SetSets(s1, Temp(Val), v);
    StackPointer(s2, false, sp);
    AddrBound(sp + 8);
    SetSets(s2, stack, Addr(sp + 8));
  }

  /** The statements of a pop, read off `PopCode`. */
  lemma PopParts(f: Family, head: seq<Stmt>, write: seq<Stmt>, move: seq<Stmt>)
    requires head == [Do1(Move, To(Temp(TempName.Stack), 64), RSP),
                      Do1(Load("RAM", Little, 64), To(Temp(Val), 64), Var(Temp(TempName.Stack), 64)),
                      Do2(Add, To(Temp(TempName.Stack), 64), RSP, Imm(8, 64))]
    requires WriteReg(Var(Reg(f, R64), 64), Var(Temp(Val), 64)) == Some(write)
    requires WriteReg(RSP, Var(Temp(TempName.Stack), 64)) == Some(move)
    ensures PopCode(Var(Reg(f, R64), 64)) == Some(head + write + move)
  {
    hide WriteReg;
    assert [] + head == head;
  }

  /** Up to the write-back of the pointer: the register is loaded, and `stack` holds the advanced pointer. */
  lemma PopFirst(st: Cpu, f: Family, st': Cpu) returns (s4: Cpu)
    requires AllCoherent(st) && st' == Pop(st, f)
    ensures AllCoherent(s4) && s4.mem == st.mem && Keeps(st, s4, {f})
    ensures R(s4, f) == LoadLittle(st.mem, R(st, SP), 8)
    ensures Get(s4, Temp(TempName.Stack)) == Addr(R(st, SP) + 8) < ADDRESSES
    ensures st' == Exec(s4, WriteReg(RSP, Var(Temp(TempName.Stack), 64)).value)
  {
    hide Exec, Eval, Step, Get, Pow2, WriteReg, LoadLittle, Addr, AllCoherent, PopCode;
    var a, stack := Var(Reg(f, R64), 64), Temp(TempName.Stack);
    var head := [Do1(Move, To(stack, 64), RSP), Do1(Load("RAM", Little, 64), To(Temp(Val), 64), Var(stack, 64)),
                 Do2(Add, To(stack, 64), RSP, Imm(8, 64))];
    WriteSucceeds(a, Var(Temp(Val), 64));
    WriteSucceeds(RSP, Var(stack, 64));
    var write, move := WriteReg(a, Var(Temp(Val), 64)).value, WriteReg(RSP, Var(stack, 64)).value;
    PopParts(f, head, write, move);
    ExecAppend(st, head + write, move);
    ExecAppend(st, head, write);
    var s3 := Exec(st, head);
    PopLoad(st, s3);
    CoherentFrame(st, s3);
    s4 := Exec(s3, write);
    var v := Get(s3, Temp(Val));
    EightBytes();
    ReadWhole(s3, Temp(Val), 64);
    CoherenceKept(s3, f, R64, Var(Temp(Val), 64), s4);
    WholeWrite(R(s3, f), v);
  }

  /** A pop into a register outside the stack pointer's family loads what the pointer designates. */
  lemma PopCorrect(st: Cpu, f: Family, st': Cpu)
    requires AllCoherent(st) && f != SP && st' == Pop(st, f)
    ensures AllCoherent(st') && st'.mem == st.mem && Keeps(st, st', {SP, f})
    ensures R(st', f) == LoadLittle(st.mem, R(st, SP), 8) && R(st', SP) == Addr(R(st, SP) + 8)
  {
    hide Exec, Get, WriteReg, LoadLittle, Addr, AllCoherent, Pop, R;
    var s4 := PopFirst(st, f, st');
    MovePointer(s4, Addr(R(st, SP) + 8), st');
  }

  /** A pop into RSP itself only advances the pointer: the final write-back overrides the loaded value. */
  lemma PopIntoPointer(st: Cpu, st': Cpu)
    requires AllCoherent(st) && st' == Pop(st, SP)
    ensures AllCoherent(st') && st'.mem == st.mem && Keeps(st, st', {SP}) && R(st', SP) == Addr(R(st, SP) + 8)
  {
    hide Exec, Get, WriteReg, LoadLittle, Addr, AllCoherent, Pop, R;
    var s4 := PopFirst(st, SP, st');
    MovePointer(s4, Addr(R(st, SP) + 8), st');
  }

  // ----- Saving and restoring any list of registers -----

  /** Only a variable from bit 0 on can be popped into. */
  lemma PopFailsIff(a: Rvalue<Name>)
    ensures PopCode(a) == None <==> !(a.Variable? && a.offset == 0)
  {
    hide WriteParts, Prologue;
  }

  /** A 64-bit operand that is no register, such as the variable for a memory operand, is loaded by a plain move. */
  lemma PopElsewhere(st: Cpu, n: Name, st': Cpu)
    requires AllCoherent(st) && n.Other? && st' == Exec(st, PopCode(Var(n, 64)).value)
    ensures AllCoherent(st') && R(st', SP) == Addr(R(st, SP) + 8) && st'.mem == st.mem
    ensures Get(st', n) == LoadLittle(st.mem, R(st, SP), 8)
    ensures forall g: Family :: g != SP ==> R(st', g) == R(st, g)
    ensures forall m: Name :: m != n && !m.Reg? && !m.Temp? ==> Get(st', m) == Get(st, m)
  {
    hide Exec, Eval, Step, Get, Pow2, LoadLittle, Addr, Coherent, Mask, WriteParts, Prologue, Set;
    var stack := Temp(TempName.Stack);
    var head := [Do1(Move, To(stack, 64), RSP), Do1(Load("RAM", Little, 64), To(Temp(Val), 64), Var(stack, 64)),
                 Do2(Add, To(stack, 64), RSP, Imm(8, 64))];
    var copy, move := Do1(Move, To(n, 64), Var(Temp(Val), 64)), WriteReg(RSP, Var(stack, 64));
    assert [] + head == head;
    assert PopCode(Var(n, 64)) == Some(head + [copy] + move.value);
    ExecAppend(st, head + [copy], move.value);
    ExecAppend(st, head, [copy]);
    var s1 := Exec(st, head);
    PopLoad(st, s1);
    CoherentFrame(st, s1);
    Exec1(s1, copy);
    var v := LoadLittle(st.mem, R(st, SP), 8);
    EightBytes();
    ReadWhole(s1, Temp(Val), 64);
    StepMove(s1, To(n, 64), Var(Temp(Val), 64), v, 64);
    SetSets(s1, n, v);
    var s2 := Exec(s1, [copy]);
    CoherentFrame(s1, s2);
    MovePointer(s2, Addr(R(st, SP) + 8), st');
  }

  function PushAll(st: Cpu, fs: seq<Family>): Cpu
    decreases |fs|
  {
    if fs == [] then st else PushAll(Push(st, fs[0]), fs[1..])
  }

  /** Pops in the reverse order. */
  function PopAll(st: Cpu, fs: seq<Family>): Cpu
    decreases |fs|
  {
    if fs == [] then st else Pop(PopAll(st, fs[1..]), fs[0])
  }

  /** The slots below `top` hold the saved registers, the first one topmost. */
  ghost predicate Saved(mem: map<nat, nat>, top: nat, st: Cpu, fs: seq<Family>)
    decreases |fs|
  {
    fs == [] || (LoadLittle(mem, Addr(top - 8), 8) == R(st, fs[0]) && Saved(mem, Addr(top - 8), st, fs[1..]))
  }

  /** Storing below the slots leaves them alone. */
  lemma {:induction false} SlotKept(mem: map<nat, nat>, a: nat, v: nat, b: nat, n: nat, d: int)
    requires (a + d) % ADDRESSES == b % ADDRESSES && 8 <= d && d + n <= ADDRESSES
    ensures SameBytes(mem, StoreLittle(mem, a, v, 8), b, n)
    decreases n
  {
    hide StoreLittle, MemAt, Clear;
    if n > 0 {
      NextByte(a, b, d);
      BehindIsClear(a, b, d);
      StoreElsewhere(mem, a, v, 8, b);
      SlotKept(mem, a, v, b + 1, n - 1, d + 1);
    }
  }

  lemma NextByte(a: nat, b: nat, d: int)
    requires (a + d) % ADDRESSES == b % ADDRESSES
    ensures (a + (d + 1)) % ADDRESSES == (b + 1) % ADDRESSES
  {
  }

  lemma BehindIsClear(a: nat, b: nat, d: int)
    requires (a + d) % ADDRESSES == b % ADDRESSES && 8 <= d < ADDRESSES
    ensures Clear(a, 8, b)
  {
    ClearAfter(a, 8, b, ADDRESSES - d);
  }

  /** Pushes leave what lies above the stack pointer alone. */
  lemma {:induction false} PushAllKeeps(st: Cpu, fs: seq<Family>, b: nat, n: nat, e: int)
    requires AllCoherent(st) && (R(st, SP) + e) % ADDRESSES == b % ADDRESSES && 0 <= e && e + n + 8 * |fs| <= ADDRESSES
    ensures SameBytes(st.mem, PushAll(st, fs).mem, b, n)
    decreases |fs|
  {
    hide Push, Addr, StoreLittle, MemAt, R, Coherent, Keeps;
    if fs == [] {
      SameBytesRefl(st.mem, b, n);
    } else {
      var st1, a := Push(st, fs[0]), Addr(R(st, SP) - 8);
      PushCorrect(st, fs[0], st1);
      AddrMoves(R(st, SP), e, b);
      SlotKept(st.mem, a, R(st, fs[0]), b, n, e + 8);
      PushAllKeeps(st1, fs[1..], b, n, e + 8);
      SameBytesTrans(st.mem, st1.mem, PushAll(st, fs).mem, b, n);
    }
  }

  lemma AddrMoves(sp: nat, e: int, b: nat)
    requires (sp + e) % ADDRESSES == b % ADDRESSES
    ensures (Addr(sp - 8) + (e + 8)) % ADDRESSES == b % ADDRESSES
  {
  }

  lemma {:induction false} SameBytesRefl(mem: map<nat, nat>, a: nat, n: nat)
    ensures SameBytes(mem, mem, a, n)
    decreases n
  {
    if n > 0 { SameBytesRefl(mem, a + 1, n - 1); }
  }

  lemma {:induction false} SameBytesTrans(m1: map<nat, nat>, m2: map<nat, nat>, m3: map<nat, nat>, a: nat, n: nat)
    requires SameBytes(m1, m2, a, n) && SameBytes(m2, m3, a, n)
    ensures SameBytes(m1, m3, a, n)
    decreases n
  {
    if n > 0 { SameBytesTrans(m1, m2, m3, a + 1, n - 1); }
  }

  lemma {:induction false} SavedSame(mem: map<nat, nat>, top: nat, st: Cpu, st1: Cpu, fs: seq<Family>)
    requires Saved(mem, top, st1, fs) && forall f :: f in fs ==> R(st1, f) == R(st, f)
    ensures Saved(mem, top, st, fs)
    decreases |fs|
  {
    hide R, LoadLittle, Addr;
    if fs != [] { SavedSame(mem, Addr(top - 8), st, st1, fs[1..]); }
  }

  lemma {:induction false} PushAllSaves(st: Cpu, fs: seq<Family>)
    requires AllCoherent(st) && SP !in fs && 8 * |fs| <= ADDRESSES
    ensures var st' := PushAll(st, fs);
            && AllCoherent(st') && Saved(st'.mem, R(st, SP), st, fs) && Keeps(st, st', {SP})
            && R(st', SP) == Addr(R(st, SP) - 8 * |fs|)
    decreases |fs|
  {
    hide Push, Addr, StoreLittle, LoadLittle, MemAt, Coherent, Get;
    var sp := R(st, SP);
    if fs == [] {
      Bounded(st, SP);
      AddrSmall(sp);
    } else {
      var f, rest, st1, st' := fs[0], fs[1..], Push(st, fs[0]), PushAll(st, fs);
      PushCorrect(st, f, st1);
      assert SP !in rest;
      PushAllSaves(st1, rest);
      SavedSame(st'.mem, R(st1, SP), st, st1, rest);
      AddrTwice(sp, 8, 8 * |rest|);
      PushAllKeeps(st1, rest, R(st1, SP), 8, 0);
      LoadSame(st1.mem, st'.mem, R(st1, SP), 8);
      Bounded(st, f);
      EightBytes();
      LoadStored(st.mem, R(st1, SP), R(st, f), 8);
    }
  }

  lemma AddrSmall(x: nat)
    requires x < ADDRESSES
    ensures Addr(x) == x && Addr(Addr(x - 8) + 8) == x
  {
  }

  lemma AddrTwice(x: int, j: nat, k: nat)
    ensures Addr(Addr(x - j) - k) == Addr(x - (j + k))
  {
  }

  lemma {:induction false} PopAllRestores(st0: Cpu, st: Cpu, fs: seq<Family>, top: nat)
    requires AllCoherent(st) && SP !in fs && top < ADDRESSES
    requires Saved(st.mem, top, st0, fs) && R(st, SP) == Addr(top - 8 * |fs|)
    ensures var st' := PopAll(st, fs);
            && AllCoherent(st') && st'.mem == st.mem && R(st', SP) == top
            && (forall f :: f in fs ==> R(st', f) == R(st0, f))
            && (forall f :: f !in fs && f != SP ==> R(st', f) == R(st, f))
            && (forall n: Name :: !n.Reg? && !n.Temp? ==> Get(st', n) == Get(st, n))
    decreases |fs|
  {
    hide Pop, Addr, LoadLittle, Coherent, Get, R;
    AddrSmall(top);
    if fs != [] {
      var f, rest := fs[0], fs[1..];
      assert f in fs && f != SP && SP !in rest;
      AddrTwice(top, 8, 8 * |rest|);
      AddrBound(top - 8);
      PopAllRestores(st0, st, rest, Addr(top - 8));
      PopCorrect(PopAll(st, rest), f, PopAll(st, fs));
    }
  }

  lemma {:induction false} SameBytesAt(mem: map<nat, nat>, mem': map<nat, nat>, a: nat, n: nat, b: nat, d: nat, k: nat)
    requires SameBytes(mem, mem', a, n) && (a + d) % ADDRESSES == b % ADDRESSES && d + k <= n
    ensures SameBytes(mem, mem', b, k)
    decreases n
  {
    hide MemAt;
    if k > 0 {
      if d > 0 {
        SameBytesAt(mem, mem', a + 1, n - 1, b, d - 1, k);
      } else {
        MemWraps(mem, a, b);
        MemWraps(mem', a, b);
        NextByte(a, b, 0);
        SameBytesAt(mem, mem', a + 1, n - 1, b + 1, 0, k - 1);
      }
    }
  }

  lemma MemWraps(mem: map<nat, nat>, a: nat, b: nat)
    requires a % ADDRESSES == b % ADDRESSES
    ensures MemAt(mem, a) == MemAt(mem, b)
  {
  }

  /** What runs in between may write anywhere but the slots. */
  lemma {:induction false} SavedStays(mem: map<nat, nat>, mem': map<nat, nat>, top: nat, st: Cpu, fs: seq<Family>,
                                      a: nat, n: nat)
    requires Saved(mem, top, st, fs) && SameBytes(mem, mem', a, n) && 8 * |fs| <= n
    requires (a + 8 * |fs|) % ADDRESSES == top % ADDRESSES
    ensures Saved(mem', top, st, fs)
    decreases |fs|
  {
    hide MemAt, LoadLittle, R, SameBytes;
    if fs != [] {
      var slot, rest := Addr(top - 8), fs[1..];
      SlotOffset(a, 8 * |rest|, top);
      SameBytesAt(mem, mem', a, n, slot, 8 * |rest|, 8);
      LoadSame(mem, mem', slot, 8);
      SavedStays(mem, mem', slot, st, rest, a, n);
    }
  }

  lemma SlotOffset(a: nat, k: nat, top: nat)
    requires (a + (k + 8)) % ADDRESSES == top % ADDRESSES
    ensures (a + k) % ADDRESSES == Addr(top - 8) % ADDRESSES
  {
  }

  /** Any list of registers outside the stack pointer's family is pushed, anything happens to the machine
    except to the stack slots and the stack pointer, and the list is popped in reverse: all listed
    registers, the stack pointer and every slice of them are as before the pushes. */
  lemma StackRoundTrip(st: Cpu, fs: seq<Family>, clobbered: Cpu)
    requires AllCoherent(st) && SP !in fs && 8 * |fs| <= ADDRESSES && AllCoherent(clobbered)
    requires R(clobbered, SP) == R(PushAll(st, fs), SP)
    requires SameBytes(PushAll(st, fs).mem, clobbered.mem, R(clobbered, SP), 8 * |fs|)
    ensures var st' := PopAll(clobbered, fs);
            && AllCoherent(st') && st'.mem == clobbered.mem && R(st', SP) == R(st, SP)
            && (forall f :: f in fs ==> R(st', f) == R(st, f))
            && (forall f :: f !in fs && f != SP ==> R(st', f) == R(clobbered, f))
            && (forall n: Name :: !n.Reg? && !n.Temp? ==> Get(st', n) == Get(clobbered, n))
  {
    hide PushAll, PopAll, SameBytes, Saved, Get, Coherent;
    var top, pushed := R(st, SP), PushAll(st, fs);
    PushAllSaves(st, fs);
    assert (R(clobbered, SP) + 8 * |fs|) % ADDRESSES == top % ADDRESSES by { AddrBack(top, 8 * |fs|); }
    SavedStays(pushed.mem, clobbered.mem, top, st, fs, R(clobbered, SP), 8 * |fs|);
    Bounded(st, SP);
    PopAllRestores(st, clobbered, fs, top);
  }

  lemma AddrBack(x: nat, k: nat)
    ensures (Addr(x - k) + k) % ADDRESSES == x % ADDRESSES
  {
  }

  /** Without anything in between, every register of the machine is as before. */
  lemma UndisturbedRoundTrip(st: Cpu, fs: seq<Family>)
    requires AllCoherent(st) && SP !in fs && 8 * |fs| <= ADDRESSES
    ensures var st' := PopAll(PushAll(st, fs), fs); AllCoherent(st') && forall f :: R(st', f) == R(st, f)
  {
    hide PushAll, PopAll, SameBytes, Saved, Get, Coherent;
    var pushed := PushAll(st, fs);
    PushAllSaves(st, fs);
    SameBytesRefl(pushed.mem, R(pushed, SP), 8 * |fs|);
    StackRoundTrip(st, fs, pushed);
  }

  // ----- Narrow operands -----

  lemma StepTemp(st: Cpu, t: TempName, op: UnaryOp, a: Rvalue<Name>, w: nat)
    ensures var st' := Step(st, Do1(op, To(Temp(t), w), a));
            st'.mem == st.mem && forall n :: n != Temp(t) ==> Get(st', n) == Get(st, n)
  {
    hide Eval, Execute1, Low, LoadLittle, LoadBig;
  }

  /** Operands below 64 bits are replaced by the temporary `res`, which is what receives the value: the pop
    moves the stack pointer and leaves every other register as it was. */
  lemma NarrowPopLosesValue(st: Cpu, f: Family, d: Part, st': Cpu)
    requires AllCoherent(st) && d != R64 && st' == Exec(st, PopCode(Var(Reg(f, d), Size(d))).value)
    ensures AllCoherent(st') && st'.mem == st.mem && Keeps(st, st', {SP}) && R(st', SP) == Addr(R(st, SP) + 8)
  {
    hide Exec, Eval, Step, Get, Pow2, LoadLittle, Addr, Coherent, Mask, WriteParts, Prologue;
    var a, stack := Var(Reg(f, d), Size(d)), Temp(TempName.Stack);
    var extend := Do1(SignExtend(64), To(Temp(Res), 64), a);
    var head := [Do1(Move, To(stack, 64), RSP), Do1(Load("RAM", Little, 64), To(Temp(Val), 64), Var(stack, 64)),
                 Do2(Add, To(stack, 64), RSP, Imm(8, 64))];
    var copy := Do1(Move, To(Temp(Res), 64), Var(Temp(Val), 64));
    var move := WriteReg(RSP, Var(stack, 64));
    assert PopCode(a) == Some([extend] + head + [copy] + move.value);
    ExecAppend(st, [extend] + head + [copy], move.value);
    ExecAppend(st, [extend] + head, [copy]);
    ExecAppend(st, [extend], head);
    Exec1(st, extend);
    StepTemp(st, Res, SignExtend(64), a, 64);
    var s1 := Step(st, extend);
    CoherentFrame(st, s1);
    var s2 := Exec(s1, head);
    PopLoad(s1, s2);
    CoherentFrame(s1, s2);
    Exec1(s2, copy);
    StepTemp(s2, Res, Move, Var(Temp(Val), 64), 64);
    var s3 := Step(s2, copy);
    CoherentFrame(s2, s3);
    MovePointer(s3, Addr(R(st, SP) + 8), st');
  }

  // ----- When POP loads its operand -----

  /** The register holds as much of the value on the stack as it has room for. */
  ghost predicate PopLoads(st: Cpu, f: Family, d: Part) {
    Get(Exec(st, PopCode(Var(Reg(f, d), Size(d))).value), Reg(f, d)) == Low(LoadLittle(st.mem, R(st, SP), 8), Size(d))
  }

  /** A machine with zero registers and 1 on the stack. */
  function Witness(): Cpu {
    Machine(map[], map[0 := 1], 0)
  }

  lemma WitnessLoads()
    ensures AllCoherent(Witness()) && R(Witness(), SP) == 0 && LoadLittle(Witness().mem, 0, 8) == 1
  {
    PowerOnCoherent(map[0 := 1], []);
    var mem := Witness().mem;
    assert LoadLittle(mem, 1, 7) == 0 by { NoBytes(mem, 1, 7); }
  }

  lemma {:induction false} NoBytes(mem: map<nat, nat>, a: nat, n: nat)
    requires mem == map[0 := 1] && 0 < a && a + n <= ADDRESSES
    ensures LoadLittle(mem, a, n) == 0
    decreases n
  {
    if n > 0 { NoBytes(mem, a + 1, n - 1); }
  }

  lemma OneFits(d: Part)
    ensures Low(1, Size(d)) == 1 && PartOf(d, 8) != 1 && PartOf(d, 0) != 1
  {
    hide Low, Pow2;
    BoundIsPower(d);
    LowOfSmall(1, Size(d));
  }

  lemma Poppable(f: Family, d: Part)
    ensures PopCode(Var(Reg(f, d), Size(d))).Some?
  {
    hide WriteParts, Prologue;
  }

  /** The witness shows a POP that does not load its operand. */
  lemma WitnessFails(f: Family, d: Part)
    requires Exists(f, d) && !(d == R64 && f != SP)
    ensures !PopLoads(Witness(), f, d)
  {
    hide Exec, Get, PopCode, LoadLittle, Low, PartOf, Keeps;
    var st := Witness();
    Poppable(f, d);
    var st' := Exec(st, PopCode(Var(Reg(f, d), Size(d))).value);
    WitnessLoads();
    OneFits(d);
    if d == R64 {
      PopIntoPointer(st, st');
    } else {
      NarrowPopLosesValue(st, f, d, st');
      if f != SP { OthersKept(st, st', f); }
    }
    assert Coherent(st', f) && Get(st', Reg(f, d)) == PartOf(d, R(st', f));
    assert R(st', f) == 0 || R(st', f) == 8 by { if f != SP { ZeroRegister(f); } }
  }

  lemma OthersKept(st: Cpu, st': Cpu, f: Family)
    requires Keeps(st, st', {SP}) && f != SP
    ensures R(st', f) == R(st, f)
  {
  }

  lemma ZeroRegister(f: Family)
    ensures R(Witness(), f) == 0
  {
  }

  /** POP loads its operand in every coherent state iff that is a 64-bit register other than RSP. */
  lemma PopLoadsIff(f: Family, d: Part)
    requires Exists(f, d)
    ensures (forall st :: AllCoherent(st) ==> PopLoads(st, f, d)) <==> d == R64 && f != SP
  {
    hide Exec, Get, PopCode, LoadLittle, Low, PartOf, Keeps, Values;
    if d == R64 && f != SP {
      forall st | AllCoherent(st) ensures PopLoads(st, f, d) {
        var v := LoadLittle(st.mem, R(st, SP), 8);
        PopCorrect(st, f, Pop(st, f));
        LoadBound(st.mem, R(st, SP), 8);
        EightBytes();
        LowOfSmall(v, 64);
      }
    } else {
      WitnessLoads();
      WitnessFails(f, d);
    }
  }
}
