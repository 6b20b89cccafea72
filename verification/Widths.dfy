/** `extend` (amd64/src/semantic.rs:167-232) and what ADC, SBB and CMP do with operands of any widths. */
module Widths {
  import opened Bits
  import opened Il
  import opened Rreil
  import opened Registers
  import opened Arithmetic
  import opened Comparison
  import opened WideWrites

  // ----- The operands that are used -----

  /** A second operand of `w` bits next to a first one of `k` bits; a narrower variable has to start at bit 0. */
  predicate Second(b: Rvalue<Name>, w: nat, k: nat) {
    0 < w <= 64 && HasSize(b, w) && (b.Variable? && w < k ==> b.offset == 0)
  }

  /** The first operand; if it has to be extended it is a variable from bit 0 on. */
  predicate First(a: Rvalue<Name>, k: nat, w: nat) {
    0 < k <= 64 && HasSize(a, k) && (k < w ==> a.Variable? && a.offset == 0)
  }

  function Wider(k: nat, w: nat): nat {
    if k < w then w else k
  }

  /** What it should work on: the operand extended with its sign. */
  function SignExtended(v: nat, w: nat, s: nat): nat
    requires v < Pow2(w)
  {
    Unsigned(Signed(v, w), s)
  }

  /** What the generated code works on instead of the first operand, of value `x`. */
  function FirstUsed(x: nat, k: nat, w: nat): nat
    requires x < Pow2(k)
  {
    if w <= k then x else SignExtended(x, k, w)
  }

  /** What it works on instead of the second one: a narrower variable is replaced by the first operand. */
  function Used(st: Cpu, b: Rvalue<Name>, k: nat, x: nat): nat {
    match b
    case Undefined => 0
    case Variable(_, _, _, size) => if size < k then x else Eval(st, b).value
    case Constant(c) => Low(c.value, Wider(k, c.size))
  }

  /** A narrower slice that does not start at bit 0 fails an assertion. */
  lemma ExtendFails(a: Rvalue<Name>, b: Rvalue<Name>, sign: bool, w: nat, k: nat)
    requires HasSize(a, k) && HasSize(b, w) && w < k && b.Variable? && b.offset > 0
    ensures Extend(a, b, sign) == None
  {
  }

  lemma {:induction false} LowSplit(v: nat, w: nat, k: nat)
    ensures Low(v, w + k) == Low(v, w) + Shl(Low(Shr(v, w), k), w)
    decreases w
  {
    if w > 0 { LowSplit(v / 2, w - 1, k); }
  }

  lemma SignExtendedIs(v: nat, w: nat, s: nat)
    requires 0 < w <= s && v < Pow2(w)
    ensures Pow2(w) <= Pow2(s)
    ensures SignExtended(v, w, s) == if TopBit(v, w - 1) == 1 then v + (Pow2(s) - Pow2(w)) else v
    ensures SignExtended(v, w, s) < Pow2(s)
  {
    hide Low;
    PowMonotone(w, s);
    if TopBit(v, w - 1) == 1 {
      LowOfSmall(Pow2(w) - v, s);
      LowOfSmall(Pow2(s) - (Pow2(w) - v), s);
    } else {
      LowOfSmall(v, s);
    }
  }

  /** The code of a narrower variable: its sign extension is computed from the first operand. */
  lemma ExtendVariable(a: Rvalue<Name>, b: Rvalue<Name>, w: nat, k: nat)
    requires First(a, k, w) && Second(b, w, k) && b.Variable? && w < k
    ensures Extend(a, b, true) ==
            Some(Extension(a, Var(Extended(b.name), k), k, [Do1(SignExtend(k), To(Extended(b.name), k), a)]))
  {
    var stmts := [Do1(SignExtend(k), To(Extended(b.name), k), a)];
    assert [] + stmts == stmts;
  }

  lemma ExtendConstant(a: Rvalue<Name>, b: Rvalue<Name>, w: nat, k: nat)
    requires First(a, k, w) && Second(b, w, k) && b.Constant? && w <= k
    ensures Extend(a, b, true) == Some(Extension(a, Constant(Const(b.c.value, k)), k, []))
  {
    var none: seq<Stmt> := [];
    assert none + none == none;
  }

  /** The code of a wider second operand: the first one is extended. */
  lemma ExtendFirst(a: Rvalue<Name>, b: Rvalue<Name>, w: nat, k: nat)
    requires First(a, k, w) && Second(b, w, k) && k < w
    ensures Extend(a, b, true) ==
            Some(Extension(Var(Extended(a.name), w), b, w, [Do1(SignExtend(w), To(Extended(a.name), w), a)]))
  {
    var stmts := [Do1(SignExtend(w), To(Extended(a.name), w), a)];
    assert stmts + [] == stmts;
  }

  lemma ExtendSucceeds(a: Rvalue<Name>, b: Rvalue<Name>, w: nat, k: nat)
    requires First(a, k, w) && Second(b, w, k)
    ensures Extend(a, b, true).Some?
  {
    hide Extend;
    if k < w {
      ExtendFirst(a, b, w, k);
    } else if b.Constant? {
      ExtendConstant(a, b, w, k);
    } else if w == k {
      ExtendSame(a, b, true, w);
    } else {
      ExtendVariable(a, b, w, k);
    }
  }

  lemma ExecSignExtend(st: Cpu, n: Name, a: Rvalue<Name>, x: nat, k: nat, s: nat)
    requires 0 < k <= s <= 64 && Eval(st, a) == Const(x, k) && x < Pow2(k)
    ensures Sets(st, Exec(st, [Do1(SignExtend(s), To(n, s), a)]), n, SignExtended(x, k, s))
    ensures SignExtended(x, k, s) < Pow2(s)
  {
    hide Exec, Get, Pow2, Low, Shr, Step, Eval, TopBit, Set, SignExtended;
    var stmt, v := Do1(SignExtend(s), To(n, s), a), SignExtended(x, k, s);
    Exec1(st, stmt);
    SignExtendedIs(x, k, s);
    SignExtendIs(x, k, s);
    StepUnary(st, SignExtend(s), n, s, a, Const(v, s));
    SetSets(st, n, v);
  }

  lemma SignExtendIs(x: nat, k: nat, s: nat)
    requires 0 < k <= s <= 64 && x < Pow2(k)
    ensures Execute1(SignExtend(s), Const(x, k)) == Some(Const(SignExtended(x, k, s), s))
  {
    hide Low, Unsigned, Signed;
    LowOfSmall(x, k);
  }

  /** After the extension both operands have the common width and read as the used values; only extended names
    changed. */
  lemma ExecExtend(st: Cpu, a: Rvalue<Name>, b: Rvalue<Name>, x: nat, w: nat, k: nat, e: Extension, st0: Cpu)
    requires First(a, k, w) && Second(b, w, k) && Steady(a) && Steady(b) && Reads(st, a, x, k)
    requires Extend(a, b, true) == Some(e) && st0 == Exec(st, e.code)
    ensures e.size == Wider(k, w) && HasSize(e.a, e.size) && HasSize(e.b, e.size) && Untouched(e.a) && Untouched(e.b)
    ensures x < Pow2(k) && Reads(st0, e.a, FirstUsed(x, k, w), e.size) && Reads(st0, e.b, Used(st, b, k, x), e.size)
    ensures st0.mem == st.mem && st0.junk == st.junk && forall n: Name :: !n.Extended? ==> Get(st0, n) == Get(st, n)
  {
    hide Get, Low, Shr, Pow2, Extend, SignExtended;
    if k < w {
      ExtendFirst(a, b, w, k);
      hide Exec;
      ExecSignExtend(st, Extended(a.name), a, x, k, w);
      ReadWhole(st0, Extended(a.name), w);
      ValueFits(st, b, w);
    } else if b.Constant? {
      ExtendConstant(a, b, w, k);
    } else if w == k {
      ExtendSame(a, b, true, w);
      ValueFits(st, b, w);
    } else {
      ExtendVariable(a, b, w, k);
      hide Exec;
      ExecSignExtend(st, Extended(b.name), a, x, k, k);
      SignExtendedIs(x, k, k);
      ReadWhole(st0, Extended(b.name), k);
    }
  }

  /** Bits `w` to `s - 1` of a constant equal bit `w - 1`. */
  predicate CopiesSign(c: nat, w: nat, s: nat)
    requires 0 < w <= s
  {
    Low(Shr(c, w), s - w) == if TopBit(Low(c, w), w - 1) == 1 then Pow2(s - w) - 1 else 0
  }

  /** The sign extension of `v`, written out. */
  function ExtendedValue(v: nat, w: nat, s: nat): int
    requires 0 < w
  {
    if TopBit(v, w - 1) == 1 then v + (Pow2(s) - Pow2(w)) else v
  }

  /** The condition on the second operand under which `extend` is right. */
  predicate ExtendsRight(st: Cpu, b: Rvalue<Name>, w: nat, k: nat, x: nat)
    requires 0 < w
  {
    || w >= k
    || (b.Constant? && CopiesSign(b.c.value, w, k))
    || (b.Variable? && x == ExtendedValue(Low(Get(st, b.name), w), w, k))
  }

  /** The generated code works on the sign extensions of both operands iff the second is not narrower, or is a
    constant all of whose bits from `w` on equal its sign bit, or is a variable whose sign extension is the first
    operand. */
  lemma ExtendRightIff(st: Cpu, b: Rvalue<Name>, w: nat, k: nat, x: nat)
    requires Second(b, w, k) && 0 < k <= 64 && x < Pow2(k)
    ensures Eval(st, b).value < Pow2(w)
    ensures var s := Wider(k, w);
            FirstUsed(x, k, w) == SignExtended(x, k, s) && Used(st, b, k, x) == SignExtended(Eval(st, b).value, w, s)
            <==> ExtendsRight(st, b, w, k, x)
  {
    hide Get, Low, Shr, Pow2, SignExtended, TopBit;
    ValueFits(st, b, w);
    var v := Eval(st, b).value;
    if w >= k {
      SignExtendedIs(v, w, w);
      SignExtendedIs(x, k, k);
    } else {
      SignExtendedIs(v, w, k);
      SignExtendedIs(x, k, k);
      if b.Constant? {
        ConstantRightIff(b.c.value, w, k);
      } else {
        ShiftNone(Get(st, b.name));
      }
    }
  }

  lemma ConstantRightIff(c: nat, w: nat, s: nat)
    requires 0 < w < s && Pow2(w) <= Pow2(s)
    ensures var v, hi := Low(c, w), Low(Shr(c, w), s - w);
            Low(c, s) == (if TopBit(v, w - 1) == 1 then v + (Pow2(s) - Pow2(w)) else v) <==>
            hi == if TopBit(v, w - 1) == 1 then Pow2(s - w) - 1 else 0
  {
    hide Low, Shr, Pow2, Shl, TopBit;
    var hi := Low(Shr(c, w), s - w);
    LowSplit(c, w, s - w);
    OnesSplit(s - w, w);
    ShlBit(w);
    ShlInjective(hi, Pow2(s - w) - 1, w);
    ShlInjective(hi, 0, w);
  }

  /** A narrower constant within its width is right iff its sign bit is clear. */
  lemma ReducedConstantRightIff(st: Cpu, c: nat, w: nat, k: nat, x: nat)
    requires 0 < w < k <= 64 && c < Pow2(w)
    ensures ExtendsRight(st, Imm(c, w), w, k, x) <==> c < Pow2(w - 1)
  {
    hide Low, Shr, Shl;
    LowOfSmall(c, w);
    LowOfSmall(0, k - w);
    PowStrict(0, k - w);
    SmallPowers();
  }

  // ----- ADC and SBB -----

  /** Registers of the family, flags, temporaries and extended names are all that may change. */
  ghost predicate OnlyResult(st: Cpu, st': Cpu, f: Family) {
    && st'.mem == st.mem
    && forall n: Name :: !n.Temp? && !n.Flag? && !n.Extended? && !(n.Reg? && n.family == f) ==>
         Get(st', n) == Get(st, n)
  }

  lemma RegisterReads(st: Cpu, f: Family, d: Part)
    requires Exists(f, d) && Coherent(st, f)
    ensures Eval(st, Var(Reg(f, d), Size(d))) == Const(Get(st, Reg(f, d)), Size(d))
    ensures Get(st, Reg(f, d)) < Pow2(Size(d))
    ensures HasSize(Var(Reg(f, d), Size(d)), Size(d)) && Steady(Var(Reg(f, d), Size(d)))
    ensures Reads(st, Var(Reg(f, d), Size(d)), Get(st, Reg(f, d)), Size(d))
  {
    hide Get, Pow2, PartOf, Low, Shr, Eval;
    PartBound(d, R(st, f));
    BoundIsPower(d);
    ReadWhole(st, Reg(f, d), Size(d));
  }

  lemma CoherentThrough(st: Cpu, st0: Cpu, f: Family)
    requires Coherent(st, f) && forall n: Name :: !n.Extended? ==> Get(st0, n) == Get(st, n)
    ensures Coherent(st0, f) && R(st0, f) == R(st, f)
  {
    hide Get, PartOf;
  }

  lemma ResultThrough(st: Cpu, st0: Cpu, st': Cpu, f: Family)
    requires st0.mem == st.mem && forall n: Name :: !n.Extended? ==> Get(st0, n) == Get(st, n)
    requires OnlyFlagsAndFamily(st0, st', f)
    ensures OnlyResult(st, st', f)
  {
    hide Get;
  }

  lemma WrappedInjective(sub: bool, x: nat, u: nat, v: nat, c: nat, s: nat)
    requires s > 0 && x < Pow2(s) && u < Pow2(s) && v < Pow2(s) && c < 2
    ensures Wrapped(Exact(sub, x, u, c), s) == Wrapped(Exact(sub, x, v, c), s) <==> u == v
  {
    hide Pow2;
  }

  /** The three parts of the code. */
  lemma CodeParts(sub: bool, f: Family, d: Part, b: Rvalue<Name>, e: Extension, write: Option<seq<Stmt>>)
    requires Extend(Var(Reg(f, d), Size(d)), b, true) == Some(e) && write.Some?
    requires write == WriteReg(Var(Reg(f, d), Size(d)), Var(Temp(Res), e.size))
    ensures CodeOf(sub, f, d, b) == e.code + CalculateCode(sub, e.a, e.b, e.size) + write.value
  {
    hide WriteReg, CalculateCode, Extend;
  }

  /** `adc` and `sbb` on any register and an operand of any width: the operands used, at the common width, give
    result and flags as section 3.4.3.1 of volume 1 of the Intel SDM asks for them; the result goes to the
    register as `Wrote` says, and nothing else changes. */
  lemma CalculateCorrect(st: Cpu, sub: bool, f: Family, d: Part, b: Rvalue<Name>, w: nat, x: nat, c: nat, st': Cpu)
    requires Exists(f, d) && Coherent(st, f) && Steady(b) && Second(b, w, Size(d))
    requires x == Get(st, Reg(f, d)) && c == Get(st, Flag(CF)) < 2 && st' == Exec(st, CodeOf(sub, f, d, b))
    ensures x < Pow2(Size(d))
    ensures var s := Wider(Size(d), w);
            var x', y := FirstUsed(x, Size(d), w), Used(st, b, Size(d), x);
            var z := Wrapped(Exact(sub, x', y, c), s);
            && x' < Pow2(s) && y < Pow2(s) && 0 <= z < Pow2(s) && z < Bound(R64)
            && z == Exact(sub, x', y, c) + (if sub then 1 else -1) * Get(st', Flag(CF)) * Pow2(s)
            && FlagsRight(st', sub, x', y, c, z, s) && Wrote(st', f, d, R(st, f), z)
    ensures OnlyResult(st, st', f)
  {
    hide Exec, Eval, Get, Pow2, CodeOf, FlagsRight, Coherent, Exact, Wrapped, Extend, Used, FirstUsed, Low, Untouched,
      Steady, Reads, CalculateCode, WriteReg, CalculatedOnly, OnlyFamily, Wrote, OnlyResult;
    var a, s := Var(Reg(f, d), Size(d)), Wider(Size(d), w);
    RegisterReads(st, f, d);
    ExtendSucceeds(a, b, w, Size(d));
    var e := Extend(a, b, true).value;
    var st0 := Exec(st, e.code);
    ExecExtend(st, a, b, x, w, Size(d), e, st0);
    var x', y := FirstUsed(x, Size(d), w), Used(st, b, Size(d), x);
    ReadsBound(st0, e.a, x', s);
    ReadsBound(st0, e.b, y, s);
    CoherentThrough(st, st0, f);
    var code, write := CalculateCode(sub, e.a, e.b, s), WriteReg(a, Var(Temp(Res), s));
    WriteSucceeds(a, Var(Temp(Res), s));
    CodeParts(sub, f, d, b, e, write);
    ExecAppend(st, e.code + code, write.value);
    ExecAppend(st, e.code, code);
    var st1 := Exec(st0, code);
    ExecCalculate(st0, st1, sub, e.a, e.b, x', y, c, s);
    var z := Get(st1, Temp(Res));
    ReadWhole(st1, Temp(Res), s);
    CoherentAgain(st0, st1, f);
    WriteAny(st1, f, d, Var(Temp(Res), s), z, s);
    FlagsKept(st0, st1, st', f, sub, x', y, c, z, s);
    RestIsCarry(sub, x', y, c, s);
    ResultThrough(st, st0, st', f);
  }

  // ----- When ADC and SBB are right -----

  lemma ExtensionMultiple(y: nat, k: nat, s: nat) returns (p: nat)
    requires 0 < k <= s && y < Pow2(k)
    ensures SignExtended(y, k, s) == Pow2(k) * p + y < Pow2(s)
  {
    hide SignExtended, Pow2;
    SignExtendedIs(y, k, s);
    Pow2Add(k, s - k);
    p := if SignExtended(y, k, s) == y then 0 else Pow2(s - k) - 1;
    assert Pow2(k) * (Pow2(s - k) - 1) == Pow2(k) * Pow2(s - k) - Pow2(k);
    Negated(Pow2(k), 0);
  }

  /** Widening the first operand changes the result by a multiple of `m` only. */
  lemma LowBits(sub: bool, x: nat, y: nat, c: nat, k: nat, s: nat, m: nat, p: nat, l: nat) returns (q: int)
    requires 0 < k <= s && m == Pow2(k) && x < m && y < Pow2(s) && c < 2 && y == m * p + l && l < m
    ensures SignExtended(x, k, s) < Pow2(s)
    ensures 0 <= Wrapped(Exact(sub, SignExtended(x, k, s), y, c), s) == Wrapped(Exact(sub, x, l, c), k) + m * q
    ensures 0 <= Wrapped(Exact(sub, x, l, c), k) < m
  {
    hide Pow2, SignExtended, Exact, Wrapped;
    Pow2Add(k, s - k);
    var big, x' := Pow2(s - k), SignExtended(x, k, s);
    var a := ExtensionMultiple(x, k, s);
    Negated(m, 0);
    ExactBound(sub, x', y, c, Pow2(s));
    var b := WrapsBy(Exact(sub, x', y, c), m, big, s);
    ExactBound(sub, x, l, c, m);
    var b' := WrapsBy(Exact(sub, x, l, c), m, 1, k);
    ExactShift(sub, x, l, c, x', y, m * a, m * p);
    Negated(m, p);
    var i: int := p;
    var p' := if sub then -i else i;
    q := a + p' + b - b';
    Spread(m, a, p', b, b');
    WrapRange(sub, x, l, c, k);
  }

  lemma WrapRange(sub: bool, x: nat, y: nat, c: nat, k: nat)
    requires 0 < k && x < Pow2(k) && y < Pow2(k) && c < 2
    ensures 0 <= Wrapped(Exact(sub, x, y, c), k) < Pow2(k)
  {
  }

  /** Widening the first operand and cutting the result back gives the result on the low bits. */
  lemma LowBitsRight(sub: bool, x: nat, y: nat, c: nat, k: nat, s: nat, m: nat, z: nat)
    requires 0 < k <= s && m == Pow2(k) && x < m && y < Pow2(s) && c < 2
    requires z == Wrapped(Exact(sub, SignExtended(x, k, s), y, c), s)
    ensures z % m == Wrapped(Exact(sub, x, y % m, c), k)
  {
    hide Pow2, SignExtended, Exact, Wrapped;
    var q := LowBits(sub, x, y, c, k, s, m, y / m, y % m);
    QuotientIs(z, m, q, Wrapped(Exact(sub, x, y % m, c), k));
  }

  /** Wrapping adds a multiple of `m`. */
  lemma WrapsBy(t: int, m: nat, big: nat, s: nat) returns (b: int)
    requires m * big == Pow2(s) && -(Pow2(s) as int) <= t < 2 * Pow2(s)
    ensures 0 <= Wrapped(t, s) == t + m * b
  {
    hide Pow2;
    b := if t < 0 then big else if t < Pow2(s) then 0 else -(big as int);
    Negated(m, big);
  }

  lemma Negated(m: nat, q: int)
    ensures m * (-q) == -(m * q) && m * 0 == 0
  {
  }

  lemma Spread(m: nat, a: int, p: int, b: int, b': int)
    ensures m * (a + p + b - b') == m * a + m * p + m * b - m * b'
  {
  }

  lemma ExactShift(sub: bool, x: nat, y: nat, c: nat, x': nat, y': nat, a: int, b: int)
    requires x' == x + a && y' == y + b
    ensures Exact(sub, x', y', c) == Exact(sub, x, y, c) + a + if sub then -b else b
  {
  }

  lemma ExactBound(sub: bool, x: nat, y: nat, c: nat, m: nat)
    requires x < m && y < m && c < 2
    ensures -(m as int) <= Exact(sub, x, y, c) < 2 * m
  {
  }

  /** The value the instruction should write: its own width, with the second operand extended or cut to it. */
  function Intended(sub: bool, x: nat, v: nat, c: nat, w: nat, k: nat): int
    requires v < Pow2(w)
  {
    Wrapped(Exact(sub, x, if w <= k then SignExtended(v, w, k) else Low(v, k), c), k)
  }

  /** The family holds what section 3.4.1.1 of volume 1 of the Intel SDM says after writing `v`. */
  ghost predicate WroteRight(st': Cpu, f: Family, d: Part, r: nat, v: int) {
    Coherent(st', f) && 0 <= v && R(st', f) == Written(d, r, v)
  }

  /** With an operand wider than the register, the register itself is always right. */
  lemma WideDestinationRight(st': Cpu, sub: bool, f: Family, d: Part, x: nat, y: nat, c: nat, s: nat, r: nat, z: nat)
    requires Exists(f, d) && Size(d) < s <= 64 && x < Pow2(Size(d)) && y < Pow2(s) && c < 2 && r < Bound(R64)
    requires z == Wrapped(Exact(sub, SignExtended(x, Size(d), s), y, c), s) && z < Bound(R64)
    requires Wrote(st', f, d, r, z)
    ensures Get(st', Reg(f, d)) == z % Bound(d) == Intended(sub, x, y, c, s, Size(d))
  {
    hide Get, Pow2, SignExtended, NameAfter, Low, Wrapped, Exact;
    BoundIsPower(d);
    DestinationRight(d, r, z);
    LowIsRemainder(y, Size(d), Bound(d));
    LowBitsRight(sub, x, y, c, Size(d), s, Bound(d), z);
  }

  lemma WrittenInjective(d: Part, r: nat, u: nat, v: nat)
    requires r < Bound(R64) && u < Bound(d) && v < Bound(d)
    ensures Written(d, r, u) == Written(d, r, v) <==> u == v
  {
  }

  /** ADC and SBB leave register and family right iff: the second operand is not wider and `extend` is right, or
    it is wider and the bits of the result that do not fit are absorbed. */
  lemma CalculateRightIff(st: Cpu, sub: bool, f: Family, d: Part, b: Rvalue<Name>, w: nat, x: nat, c: nat, st': Cpu)
    requires Exists(f, d) && Coherent(st, f) && Steady(b) && Second(b, w, Size(d))
    requires x == Get(st, Reg(f, d)) && c == Get(st, Flag(CF)) < 2 && st' == Exec(st, CodeOf(sub, f, d, b))
    ensures x < Pow2(Size(d)) && Eval(st, b).value < Pow2(w)
    ensures var k := Size(d);
            var z := Wrapped(Exact(sub, FirstUsed(x, k, w), Used(st, b, k, x), c), Wider(k, w));
            0 <= z && (WroteRight(st', f, d, R(st, f), Intended(sub, x, Eval(st, b).value, c, w, k))
                       <==> if w <= k then ExtendsRight(st, b, w, k, x) else Absorbed(d, R(st, f), z))
  {
    hide Exec, Eval, Get, Pow2, CodeOf, FlagsRight, Coherent, SignExtended, ExtendsRight, OnlyResult, Low, Absorbed,
      Wrote, Written, Exact, Wrapped;
    var k, s, r, v := Size(d), Wider(Size(d), w), R(st, f), Eval(st, b).value;
    CalculateCorrect(st, sub, f, d, b, w, x, c, st');
    ValueFits(st, b, w);
    RegisterBound(st, f);
    var u := Used(st, b, k, x);
    var z := Wrapped(Exact(sub, FirstUsed(x, k, w), u, c), s);
    WroteRightIff(st', f, d, r, z);
    if w <= k {
      BoundIsPower(d);
      NarrowRightIff(st, st', sub, f, d, b, w, x, c, r, z);
    } else {
      UsedWide(st, b, k, x, w);
      WideDestinationRight(st', sub, f, d, x, v, c, s, r, z);
    }
  }

  lemma UsedWide(st: Cpu, b: Rvalue<Name>, k: nat, x: nat, w: nat)
    requires HasSize(b, w) && k < w <= 64
    ensures Used(st, b, k, x) == Eval(st, b).value
  {
    hide Low, Get;
  }

  lemma NarrowRightIff(st: Cpu, st': Cpu, sub: bool, f: Family, d: Part, b: Rvalue<Name>, w: nat, x: nat, c: nat,
                       r: nat, z: nat)
    requires Exists(f, d) && Second(b, w, Size(d)) && w <= Size(d) && x < Pow2(Size(d)) && c < 2 && r < Bound(R64)
    requires Used(st, b, Size(d), x) < Pow2(Size(d)) && Eval(st, b).value < Pow2(w)
    requires z == Wrapped(Exact(sub, x, Used(st, b, Size(d), x), c), Size(d)) && z < Bound(d) && Wrote(st', f, d, r, z)
    ensures WroteRight(st', f, d, r, Intended(sub, x, Eval(st, b).value, c, w, Size(d)))
            <==> ExtendsRight(st, b, w, Size(d), x)
  {
    hide Eval, Get, Pow2, Coherent, SignExtended, ExtendsRight, Low, Absorbed, Wrote, Written, Exact, Wrapped, Used;
    var k, v, u := Size(d), Eval(st, b).value, Used(st, b, Size(d), x);
    BoundIsPower(d);
    ExtendRightIff(st, b, w, k, x);
    SignExtendedIs(v, w, k);
    SignExtendedIs(x, k, k);
    var y := SignExtended(v, w, k);
    TwoSteps(sub, x, y, c, k);
    WrappedInjective(sub, x, u, y, c, k);
    FittingAbsorbed(d, r, z);
    WroteRightIff(st', f, d, r, z);
    QuotientIs(z, Bound(d), 0, z);
    var i := Intended(sub, x, v, c, w, k);
    WrapRange(sub, x, y, c, k);
    WrittenInjective(d, r, z, i);
  }

  // ----- The flags with a wider operand -----

  /** The exact result of the signed operands. */
  function SignedExact(sub: bool, x: nat, y: nat, c: nat, k: nat): int
    requires x < Pow2(k) && y < Pow2(k)
  {
    if sub then Signed(x, k) - Signed(y, k) - c else Signed(x, k) + Signed(y, k) + c
  }

  predicate InRange(t: int, k: nat)
    requires k > 0
  {
    -(Pow2(k - 1) as int) <= t < Pow2(k - 1)
  }

  lemma SignKept(x: nat, k: nat, s: nat)
    requires 0 < k < s && x < Pow2(k)
    ensures SignExtended(x, k, s) < Pow2(s) && Signed(SignExtended(x, k, s), s) == Signed(x, k)
    ensures Pow2(k) == 2 * Pow2(k - 1) && Pow2(s) == 2 * Pow2(s - 1) && Pow2(k) <= Pow2(s - 1)
    ensures SignExtended(x, k, s) == if x >= Pow2(k - 1) then x + (Pow2(s) - Pow2(k)) else x
  {
    hide SignExtended, Pow2;
    SignExtendedIs(x, k, s);
    PowMonotone(k, s - 1);
    NextPower(k - 1);
    NextPower(s - 1);
  }

  /** Carry and borrow are the same at both widths. */
  lemma CarrySame(sub: bool, x: nat, y: nat, c: nat, k: nat, s: nat)
    requires 0 < k < s && x < Pow2(k) && y < Pow2(k) && c < 2
    ensures 0 <= Exact(sub, SignExtended(x, k, s), SignExtended(y, k, s), c) < Pow2(s) <==>
            0 <= Exact(sub, x, y, c) < Pow2(k)
    ensures SignExtended(x, k, s) < SignExtended(y, k, s) <==> x < y
    ensures SignExtended(y, k, s) == 0 <==> y == 0
  {
    hide SignExtended, Pow2, Signed;
    SignKept(x, k, s);
    SignKept(y, k, s);
  }

  /** Sign and overflow flags of the wider operation are those of the narrow one iff that does not overflow; the
    zero flag is wrong only if the exact result is the lowest one. */
  lemma SignFlagsIff(sub: bool, x: nat, y: nat, c: nat, k: nat, s: nat, z': nat, z: nat)
    requires 0 < k < s && x < Pow2(k) && y < Pow2(k) && c < 2
    requires SignExtended(x, k, s) < Pow2(s) && SignExtended(y, k, s) < Pow2(s)
    requires z' == Wrapped(Exact(sub, SignExtended(x, k, s), SignExtended(y, k, s), c), s)
    requires z == Wrapped(Exact(sub, x, y, c), k)
    ensures var t := SignedExact(sub, x, y, c, k);
            && SignedExact(sub, SignExtended(x, k, s), SignExtended(y, k, s), c, s) == t && InRange(t, s)
            && ((z' >= Pow2(s - 1) <==> z >= Pow2(k - 1)) <==> InRange(t, k))
            && ((z' == 0 <==> z == 0) <==> t != -(Pow2(k) as int))
  {
    hide SignExtended, Pow2;
    SignKept(x, k, s);
    SignKept(y, k, s);
  }

  lemma SameRemainder(a: int, b: int, q: int, m: nat)
    requires m > 0 && a == b + m * q
    ensures a % m == b % m
  {
    assert a == (b / m + q) * m + b % m by {
      assert (b / m + q) * m == b / m * m + m * q;
    }
    QuotientIs(a, m, b / m + q, b % m);
  }

  lemma NibbleSame(x: nat, k: nat, s: nat)
    requires 4 <= k < s && x < Pow2(k)
    ensures SignExtended(x, k, s) % 16 == x % 16
  {
    hide SignExtended, Pow2;
    SignKept(x, k, s);
    SmallPowers();
    Pow2Add(k - 4, 4);
    Pow2Add(s - 4, 4);
    var q := if x >= Pow2(k - 1) then Pow2(s - 4) - Pow2(k - 4) else 0;
    assert SignExtended(x, k, s) == x + 16 * q;
    SameRemainder(SignExtended(x, k, s), x, q, 16);
  }

  lemma ByteSame(sub: bool, x: nat, y: nat, c: nat, k: nat, s: nat, z': nat, z: nat)
    requires 8 <= k < s && x < Pow2(k) && y < Pow2(k) && c < 2
    requires SignExtended(y, k, s) < Pow2(s)
    requires z' == Wrapped(Exact(sub, SignExtended(x, k, s), SignExtended(y, k, s), c), s)
    requires z == Wrapped(Exact(sub, x, y, c), k)
    ensures z' % 0x100 == z % 0x100
  {
    hide SignExtended, Pow2, Exact, Wrapped;
    var p := ExtensionMultiple(y, k, s);
    var q := LowBits(sub, x, SignExtended(y, k, s), c, k, s, Pow2(k), p, y);
    var q' := ByteMultiple(k, q);
    SameRemainder(z', z, q', 0x100);
  }

  lemma ByteMultiple(k: nat, q: int) returns (q': int)
    requires 8 <= k
    ensures Pow2(k) * q == 0x100 * q'
  {
    hide Pow2;
    Powers();
    Pow2Add(k - 8, 8);
    q' := Pow2(k - 8) * q;
    assert Pow2(k - 8) * 0x100 * q == 0x100 * (Pow2(k - 8) * q);
  }

  /** The flags of `x` and `y`, added or subtracted at a width above `k`, judged at width `k` with result `z`: CF, AF
    and PF are right; SF and OF are iff the narrow operation does not overflow; ZF is iff the exact signed result
    is not the lowest number `-Pow2(k)`. */
  ghost predicate WideFlags(st': Cpu, sub: bool, x: nat, y: nat, c: nat, k: nat, z: int)
    requires k > 0 && x < Pow2(k) && y < Pow2(k)
  {
    var t := SignedExact(sub, x, y, c, k);
    && Get(st', Flag(CF)) == Bit(!(0 <= Exact(sub, x, y, c) < Pow2(k)))
    && Get(st', Flag(AF)) == Bit(!(0 <= Exact(sub, x % 16, y % 16, c) < 16))
    && z >= 0 && Get(st', Flag(PF)) == Bit(Ones(z % 0x100, 8) % 2 == 0)
    && (Get(st', Flag(SF)) == Bit(z >= Pow2(k - 1)) <==> InRange(t, k))
    && (Get(st', Flag(OF)) == Bit(!InRange(t, k)) <==> InRange(t, k))
    && (Get(st', Flag(ZF)) == Bit(z == 0) <==> t != -(Pow2(k) as int))
  }

  lemma WideFlagsIff(st': Cpu, sub: bool, x: nat, y: nat, c: nat, k: nat, s: nat, z': nat, z: nat)
    requires 8 <= k < s <= 64 && x < Pow2(k) && y < Pow2(k) && c < 2
    requires SignExtended(x, k, s) < Pow2(s) && SignExtended(y, k, s) < Pow2(s)
    requires z' == Wrapped(Exact(sub, SignExtended(x, k, s), SignExtended(y, k, s), c), s)
    requires z == Wrapped(Exact(sub, x, y, c), k)
    requires FlagsRight(st', sub, SignExtended(x, k, s), SignExtended(y, k, s), c, z', s)
    ensures WideFlags(st', sub, x, y, c, k, z)
  {
    hide SignExtended, Pow2, Get, Wrapped, Signed, Ones, Exact;
    CarrySame(sub, x, y, c, k, s);
    SignFlagsIff(sub, x, y, c, k, s, z', z);
    NibbleSame(x, k, s);
    NibbleSame(y, k, s);
    ByteSame(sub, x, y, c, k, s, z', z);
  }

  /** The low bits of a sign extension are the value. */
  lemma LowOfExtension(y: nat, k: nat, s: nat)
    requires 0 < k <= s && y < Pow2(k)
    ensures Low(SignExtended(y, k, s), k) == y
  {
    hide SignExtended, Pow2, Low;
    var p := ExtensionMultiple(y, k, s);
    LowIsRemainder(SignExtended(y, k, s), k, Pow2(k));
    QuotientIs(SignExtended(y, k, s), Pow2(k), p, y);
  }

  /** ADC and SBB with an operand that is wider than the register and the sign extension of `y`, which has the
    register's width: the register gets the right result, the flags are as `WideFlags` says. */
  lemma CalculateExtended(st: Cpu, sub: bool, f: Family, d: Part, b: Rvalue<Name>, w: nat, x: nat, y: nat, c: nat,
                          st': Cpu)
    requires Exists(f, d) && Coherent(st, f) && Steady(b) && Second(b, w, Size(d)) && Size(d) < w
    requires y < Pow2(Size(d)) && Eval(st, b).value == SignExtended(y, Size(d), w)
    requires x == Get(st, Reg(f, d)) && c == Get(st, Flag(CF)) < 2 && st' == Exec(st, CodeOf(sub, f, d, b))
    ensures x < Pow2(Size(d)) && Get(st', Reg(f, d)) == Wrapped(Exact(sub, x, y, c), Size(d))
    ensures WideFlags(st', sub, x, y, c, Size(d), Wrapped(Exact(sub, x, y, c), Size(d)))
  {
    hide Exec, Eval, Get, Pow2, CodeOf, FlagsRight, Coherent, SignExtended, OnlyResult, Low, Wrote, Exact, Wrapped,
      WideFlags;
    var k := Size(d);
    CalculateCorrect(st, sub, f, d, b, w, x, c, st');
    UsedWide(st, b, k, x, w);
    RegisterBound(st, f);
    var z' := Wrapped(Exact(sub, SignExtended(x, k, w), SignExtended(y, k, w), c), w);
    WideDestinationRight(st', sub, f, d, x, SignExtended(y, k, w), c, w, R(st, f), z');
    LowOfExtension(y, k, w);
    WideFlagsIff(st', sub, x, y, c, k, w, z', Wrapped(Exact(sub, x, y, c), k));
  }

  /** adc rax, 0xffffffff, whose 32-bit immediate stands for -1: from 0 without carry it gives 0xffffffff. */
  lemma AdcImmediateAddsUnsigned(st: Cpu, st': Cpu)
    requires Coherent(st, A) && R(st, A) == 0 && Get(st, Flag(CF)) == 0
    requires st' == Exec(st, CodeOf(false, A, R64, Imm(0xffff_ffff, 32)))
    ensures R(st', A) == 0xffff_ffff
  {
    hide Exec, Eval, Get, Pow2, CodeOf, FlagsRight, Coherent, OnlyResult, Low;
    Powers();
    LowOfSmall(0xffff_ffff, 64);
    CalculateCorrect(st, false, A, R64, Imm(0xffff_ffff, 32), 32, 0, 0, st');
    assert Get(st', Reg(A, R64)) == NameAfter(R64, R64, 0, 0xffff_ffff);
  }

  // ----- CMP -----

  /** CMP on operands of any widths, with the operands used. */
  lemma CompareCorrect(st: Cpu, st': Cpu, a: Rvalue<Name>, b: Rvalue<Name>, x: nat, c: nat, w: nat, k: nat)
    requires 8 <= k && Steady(a) && Steady(b) && First(a, k, w) && Second(b, w, k) && Reads(st, a, x, k)
    requires Get(st, Flag(CF)) == c < 2 && Cmp(a, b).Some? && st' == Exec(st, Cmp(a, b).value)
    ensures x < Pow2(k)
    ensures var x', y, s := FirstUsed(x, k, w), Used(st, b, k, x), Wider(k, w);
            var z := Wrapped(x' - y, s);
            && x' < Pow2(s) && y < Pow2(s) && 0 <= z < Pow2(s)
            && Get(st', Temp(Res)) == z && OtherFlagsRight(st', x', y, z, s)
            && Get(st', Flag(CF)) == Bit(x' < y || (y == 0 && c == 1))
            && (Get(st', Flag(CF)) == Bit(x' < y) <==> !(y == 0 && c == 1))
    ensures st'.mem == st.mem
    ensures forall n: Name :: !n.Temp? && !n.Flag? && !n.Extended? ==> Get(st', n) == Get(st, n)
  {
    hide Exec, Eval, Get, Pow2, CompareCode, OtherFlagsRight, Extend, Used, FirstUsed, Low, Reads, Wrapped;
    ExtendSucceeds(a, b, w, k);
    var e := Extend(a, b, true).value;
    var st0 := Exec(st, e.code);
    ExecExtend(st, a, b, x, w, k, e, st0);
    var x', y, s := FirstUsed(x, k, w), Used(st, b, k, x), Wider(k, w);
    ReadsBound(st0, e.a, x', s);
    ReadsBound(st0, e.b, y, s);
    ExecAppend(st, e.code, CompareCode(e.a, e.b, e.size));
    ExtendSame(e.a, e.b, true, s);
    assert [] + CompareCode(e.a, e.b, s) == CompareCode(e.a, e.b, s);
    CompareEqual(st0, st', e.a, e.b, x', y, c, s);
  }

  /** CMP compares the sign extensions of its operands iff `extend` is right. */
  lemma CompareRightIff(st: Cpu, st': Cpu, a: Rvalue<Name>, b: Rvalue<Name>, x: nat, c: nat, w: nat, k: nat)
    requires 8 <= k && Steady(a) && Steady(b) && First(a, k, w) && Second(b, w, k) && Reads(st, a, x, k)
    requires Get(st, Flag(CF)) == c < 2 && Cmp(a, b).Some? && st' == Exec(st, Cmp(a, b).value)
    ensures x < Pow2(k) && Eval(st, b).value < Pow2(w)
    ensures var s := Wider(k, w);
            var x', y := SignExtended(x, k, s), SignExtended(Eval(st, b).value, w, s);
            Get(st', Temp(Res)) == Wrapped(x' - y, s) <==> ExtendsRight(st, b, w, k, x)
  {
    hide Exec, Eval, Get, Pow2, Cmp, OtherFlagsRight, Used, SignExtended, ExtendsRight, Low, Reads;
    var u, s := Used(st, b, k, x), Wider(k, w);
    CompareCorrect(st, st', a, b, x, c, w, k);
    ExtendRightIff(st, b, w, k, x);
    SignExtendedIs(Eval(st, b).value, w, s);
    SignExtendedIs(x, k, s);
    WrappedInjective(true, SignExtended(x, k, s), u, SignExtended(Eval(st, b).value, w, s), 0, s);
  }
}
