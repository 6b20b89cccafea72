/** `write_reg` (amd64/src/semantic.rs:291-439) with a value of any width up to 64 bits. A value wider than the
  register spills into the bits above it. */
module WideWrites {
  import opened Bits
  import opened Il
  import opened Rreil
  import opened Registers

  // ----- Bits -----

  lemma BitwiseParts(op: BitOp, x: nat, y: nat, k: nat)
    ensures Low(Bitwise(op, x, y), k) == Bitwise(op, Low(x, k), Low(y, k))
    ensures Shr(Bitwise(op, x, y), k) == Bitwise(op, Shr(x, k), Shr(y, k))
  {
    hide Bitwise, Low, Shr, Shl;
    Reassemble(x, k);
    Reassemble(y, k);
    BitwiseSplit(op, x, y, Shr(x, k), Low(x, k), Shr(y, k), Low(y, k), k);
    BitwiseBound(op, Low(x, k), Low(y, k), k);
    Disassemble(Bitwise(op, x, y), Bitwise(op, Shr(x, k), Shr(y, k)), Bitwise(op, Low(x, k), Low(y, k)), k);
  }

  lemma {:induction false} BitwiseCommutes(op: BitOp, x: nat, y: nat)
    ensures Bitwise(op, x, y) == Bitwise(op, y, x)
    decreases x + y
  {
    if x + y > 0 {
      BitwiseStep(op, x, y);
      BitwiseStep(op, y, x);
      BitwiseCommutes(op, x / 2, y / 2);
    }
  }

  /** All bits of `y` are set in `x`. */
  predicate HasBits(x: nat, y: nat) {
    Bitwise(AndBits, x, y) == y
  }

  /** Or-ing in bits changes nothing iff they are all set already. */
  lemma {:induction false} OrKeepsIff(x: nat, y: nat)
    ensures Bitwise(OrBits, x, y) == x <==> HasBits(x, y)
    decreases x + y
  {
    if x + y > 0 {
      BitwiseStep(OrBits, x, y);
      BitwiseStep(AndBits, x, y);
      OrKeepsIff(x / 2, y / 2);
    }
  }

  /** Slices of an or are the or of the slices. */
  lemma OrParts(p: Part, a: nat, b: nat)
    requires a < Bound(R64) && b < Bound(R64)
    ensures Bitwise(OrBits, a, b) < Bound(R64)
    ensures PartOf(p, Bitwise(OrBits, a, b)) == Bitwise(OrBits, PartOf(p, a), PartOf(p, b))
  {
    hide Bitwise, Low, Shr, Pow2, PartOf;
    var or := Bitwise(OrBits, a, b);
    Powers();
    BitwiseBound(OrBits, a, b, 64);
    SliceValue(p, a);
    SliceValue(p, b);
    SliceValue(p, or);
    if p == H8 {
      BitwiseParts(OrBits, a, b, 8);
      BitwiseParts(OrBits, Shr(a, 8), Shr(b, 8), 8);
    } else {
      BitwiseParts(OrBits, a, b, Size(p));
    }
  }

  // ----- What the names hold afterwards -----

  /** The temporary `val`: the value moved to its place in the register. */
  function Shifted(d: Part, z: nat): nat {
    if d == H8 then z * 0x100 % 0x1_0000_0000_0000_0000 else z
  }

  /** The 64-bit register: filled by 64- and 32-bit destinations, otherwise or-ed with the whole value. */
  function Merged(d: Part, r: nat, z: nat): nat {
    if d == R64 || d == E32 then z else Bitwise(OrBits, Written(d, r, 0), Shifted(d, z))
  }

  /** A write to AL does not touch AH; all other names follow the 64-bit register. */
  function NameAfter(d: Part, p: Part, r: nat, z: nat): nat {
    if d == L8 && p == H8 then PartOf(H8, r) else PartOf(p, Merged(d, r, z))
  }

  lemma ShiftedBound(d: Part, z: nat)
    requires z < Bound(R64)
    ensures Shifted(d, z) < Bound(R64) && (d == H8 ==> Shifted(d, z) % 0x100 == 0)
    ensures d == H8 ==> Shifted(d, z) % 0x1_0000 == z % 0x100 * 0x100
  {
    if d == H8 {
      var q, m := z / 0x100_0000_0000_0000, z % 0x100_0000_0000_0000;
      QuotientIs(z * 0x100, 0x1_0000_0000_0000_0000, q, m * 0x100);
      var h, l := m / 0x100, m % 0x100;
      QuotientIs(m * 0x100, 0x1_0000, h, l * 0x100);
      QuotientIs(m * 0x100, 0x100, m, 0);
      QuotientIs(z, 0x100, q * 0x1_0000_0000_0000 + h, l);
    }
  }

  lemma ClearedBound(d: Part, r: nat)
    requires r < Bound(R64)
    ensures Written(d, r, 0) < Bound(R64)
  {
    hide Written;
    var x, y := PartOfWritten(d, R64, r, 0);
  }

  lemma MergedBound(d: Part, r: nat, z: nat)
    requires r < Bound(R64) && z < Bound(R64)
    ensures Merged(d, r, z) < Bound(R64)
  {
    hide Bitwise, Written;
    ClearedBound(d, r);
    ShiftedBound(d, z);
    OrParts(R64, Written(d, r, 0), Shifted(d, z));
  }

  lemma AfterCovered(d: Part, p: Part, r: nat, z: nat)
    requires (Covers(d, p) || (d == E32 && p == R64)) && r < Bound(R64) && z < Bound(R64)
    ensures PartOf(p, Shifted(d, z)) == NameAfter(d, p, r, z)
  {
    hide Bitwise, Written, PartOf;
    ShiftedBound(d, z);
    if d != R64 && d != E32 {
      ClearedBound(d, r);
      CoveredValue(d, p, r, 0, 0);
      OrParts(p, Written(d, r, 0), Shifted(d, z));
      PartOfZero(p);
      OrZero(PartOf(p, Shifted(d, z)));
    }
  }

  lemma PartOfZero(p: Part)
    ensures PartOf(p, 0) == 0
  {
  }

  lemma AfterUntouched(d: Part, p: Part, r: nat, z: nat)
    requires Apart(d, p) && r < Bound(R64) && z < Bound(R64)
    ensures PartOf(p, r) == NameAfter(d, p, r, z)
  {
    if d == H8 {
      ShiftedBound(d, z);
      hide Bitwise, Written, Shifted;
      ClearedBound(d, r);
      UntouchedPart(d, p, r, 0);
      OrParts(p, Written(d, r, 0), Shifted(d, z));
      OrZero(PartOf(p, r));
    }
  }

  /** What the mask leaves of a name is its slice of the register with the destination cleared. */
  lemma MaskedPart(d: Part, p: Part, r: nat, mask: nat)
    requires (d == L8 || d == X16 || d == H8) && !Covers(d, p) && !Apart(d, p) && r < Bound(R64)
    requires mask == PartMask(p, Lo(d), Hi(d))
    ensures 0 < mask < Pow2(Size(p)) - 1 && p != H8
    ensures Bitwise(AndBits, PartOf(p, r), mask) == PartOf(p, Written(d, r, 0))
  {
    hide Bitwise, PartOf, Written, PartMask, Pow2, Shl, Bound;
    var x, w := PartOf(p, r), Size(p);
    BoundIsPower(p);
    BoundIsPower(d);
    PartBound(p, r);
    if d == H8 {
      MaskMiddle(p);
      MiddleMaskBounds(w, mask);
      ReplacedMiddle(x, w, mask, 0);
      OrZero(Bitwise(AndBits, x, mask));
      assert 0 < Bound(H8) by { BoundOfBytes(); }
      MiddleValue(p, r, 0);
    } else {
      MaskBelow(d, p);
      MaskLow(w, Size(d));
      PowStrict(Size(d), w);
      PowStrict(0, Size(d));
      SmallPowers();
      ClearedField(x, w, Size(d), Bound(d), mask);
      BlendedValue(d, p, r, 0);
    }
  }

  lemma AfterBlended(d: Part, p: Part, r: nat, z: nat)
    requires (d == L8 || d == X16 || d == H8) && !Covers(d, p) && !Apart(d, p) && p != H8
    requires r < Bound(R64) && z < Bound(R64)
    ensures Bitwise(OrBits, PartOf(p, Written(d, r, 0)), Low(Shifted(d, z), Size(p))) == NameAfter(d, p, r, z)
  {
    hide Bitwise, PartOf, Written, Low, Shifted;
    ShiftedBound(d, z);
    ClearedBound(d, r);
    SliceValue(p, Shifted(d, z));
    OrParts(p, Written(d, r, 0), Shifted(d, z));
  }

  // ----- Executing the write -----

  lemma ExecWidePart(st: Cpu, f: Family, d: Part, p: Part, r: nat, z: nat, code: seq<Stmt>)
    requires code == WritePart(f, p, Lo(d), Hi(d)) && Exists(f, d) && r < Bound(R64) && z < Bound(R64)
    requires Get(st, Temp(Val)) == Shifted(d, z) && (Exists(f, p) ==> Get(st, Reg(f, p)) == PartOf(p, r))
    ensures SetsPart(st, Exec(st, code), f, p, NameAfter(d, p, r, z))
  {
    hide Get, Mask, Pow2, PartMask, PartOf, Low, Shr, Shl, NameAfter, Shifted, Bound;
    if !Reaches(f, p, Lo(d), Hi(d)) {
      if Exists(f, p) { AfterUntouched(d, p, r, z); }
    } else if Covers(d, p) || (d == E32 && p == R64) {
      AfterCovered(d, p, r, z);
      ExecWideCovered(st, f, d, p, z, code);
    } else {
      ExecWideBlended(st, f, d, p, r, z, code);
    }
  }

  lemma ExecWideCovered(st: Cpu, f: Family, d: Part, p: Part, z: nat, code: seq<Stmt>)
    requires code == WritePart(f, p, Lo(d), Hi(d)) && Reaches(f, p, Lo(d), Hi(d)) && z < Bound(R64)
    requires (Covers(d, p) || (d == E32 && p == R64)) && Get(st, Temp(Val)) == Shifted(d, z)
    ensures SetsPart(st, Exec(st, code), f, p, PartOf(p, Shifted(d, z)))
  {
    hide Get, Mask, Pow2, PartMask, PartOf, Low, Shr, Shl, Exec, Step, SetsPart, Shifted;
    ShiftedBound(d, z);
    if Covers(d, p) { MaskCovered(d, p); }
    ExecMovePart(st, f, p, Shifted(d, z));
  }

  lemma ExecWideBlended(st: Cpu, f: Family, d: Part, p: Part, r: nat, z: nat, code: seq<Stmt>)
    requires code == WritePart(f, p, Lo(d), Hi(d)) && Reaches(f, p, Lo(d), Hi(d))
    requires !Covers(d, p) && !(d == E32 && p == R64) && r < Bound(R64) && z < Bound(R64)
    requires Get(st, Temp(Val)) == Shifted(d, z) && (Exists(f, p) ==> Get(st, Reg(f, p)) == PartOf(p, r))
    ensures SetsPart(st, Exec(st, code), f, p, NameAfter(d, p, r, z))
  {
    hide Get, Mask, Pow2, PartMask, PartOf, Low, Shr, Shl, Exec, Step, Sets, Set, Blend, Bound, NameAfter, Shifted,
      Written, Bitwise;
    var mask := PartMask(p, Lo(d), Hi(d));
    MaskedPart(d, p, r, mask);
    AfterBlended(d, p, r, z);
    PartBound(p, r);
    BoundIsPower(p);
    ExecBlendMask(st, Reg(f, p), Size(p), mask);
    SetSets(st, Reg(f, p), NameAfter(d, p, r, z));
  }

  /** The first `k` names are written, the others as before. */
  ghost predicate WideStaged(st: Cpu, st': Cpu, f: Family, k: nat, d: Part, r: nat, z: nat) {
    && st'.mem == st.mem && st'.junk == st.junk
    && (forall p :: Exists(f, p) ==>
          Get(st', Reg(f, p)) == if Rank(p) < k then NameAfter(d, p, r, z) else PartOf(p, r))
    && (forall n: Name :: !(n.Reg? && n.family == f) ==> Get(st', n) == Get(st, n))
  }

  lemma WideStage(st0: Cpu, st: Cpu, f: Family, d: Part, p: Part, r: nat, z: nat)
    requires WideStaged(st0, st, f, Rank(p), d, r, z) && Exists(f, d) && r < Bound(R64) && z < Bound(R64)
    requires Get(st0, Temp(Val)) == Shifted(d, z)
    ensures WideStaged(st0, Exec(st, WritePart(f, p, Lo(d), Hi(d))), f, Rank(p) + 1, d, r, z)
  {
    hide Get, PartOf, NameAfter, WritePart, Exec, Bound, Lo, Hi, Rank, SetsPart, Shifted;
    var code := WritePart(f, p, Lo(d), Hi(d));
    assert Get(st, Temp(Val)) == Get(st0, Temp(Val));
    ExecWidePart(st, f, d, p, r, z, code);
    WideStageNext(st0, st, Exec(st, code), f, d, p, r, z);
  }

  lemma WideStageNext(st0: Cpu, st: Cpu, st': Cpu, f: Family, d: Part, p: Part, r: nat, z: nat)
    requires WideStaged(st0, st, f, Rank(p), d, r, z) && SetsPart(st, st', f, p, NameAfter(d, p, r, z))
    ensures WideStaged(st0, st', f, Rank(p) + 1, d, r, z)
  {
    hide Get, PartOf, NameAfter, Exists;
    forall q | Exists(f, q)
      ensures Get(st', Reg(f, q)) == if Rank(q) < Rank(p) + 1 then NameAfter(d, q, r, z) else PartOf(q, r)
    {
      if q != p {
        assert Get(st', Reg(f, q)) == Get(st, Reg(f, q));
      }
    }
  }

  lemma ExecWideParts(st: Cpu, f: Family, d: Part, r: nat, z: nat)
    requires WideStaged(st, st, f, 0, d, r, z) && Exists(f, d) && r < Bound(R64) && z < Bound(R64)
    requires Get(st, Temp(Val)) == Shifted(d, z)
    ensures WideStaged(st, Exec(st, WriteParts(f, Lo(d), Hi(d))), f, 5, d, r, z)
  {
    hide Get, WritePart, Exec, Bound, Lo, Hi, WideStaged, Exists, Shifted;
    var lo, hi := Lo(d), Hi(d);
    Exec5(st, WritePart(f, L8, lo, hi), WritePart(f, H8, lo, hi), WritePart(f, X16, lo, hi),
          WritePart(f, E32, lo, hi), WritePart(f, R64, lo, hi));
    WideStage(st, st, f, d, L8, r, z);
    var s1 := Exec(st, WritePart(f, L8, lo, hi));
    WideStage(st, s1, f, d, H8, r, z);
    var s2 := Exec(s1, WritePart(f, H8, lo, hi));
    WideStage(st, s2, f, d, X16, r, z);
    var s3 := Exec(s2, WritePart(f, X16, lo, hi));
    WideStage(st, s3, f, d, E32, r, z);
    var s4 := Exec(s3, WritePart(f, E32, lo, hi));
    WideStage(st, s4, f, d, R64, r, z);
  }

  lemma WideMultiply(st: Cpu, z: nat)
    requires Get(st, Temp(Val)) == z < Bound(R64)
    ensures Step(st, Do2(Multiply, To(Temp(Val), 64), Var(Temp(Val), 64), Imm(Pow2(8), 64))) ==
            Set(st, Temp(Val), Shifted(H8, z))
  {
    hide Low, Shr, Shl, Eval, Pow2, Step, Execute2, Get;
    Powers();
    ReadWhole(st, Temp(Val), 64);
    EvalImm(st, Pow2(8), 64);
    LowIsRemainder(z * 0x100, 64, 0x1_0000_0000_0000_0000);
    ExecuteValue(Multiply, z, 0x100, 64, z * 0x100, Shifted(H8, z));
    StepBinary(st, Multiply, Temp(Val), 64, Var(Temp(Val), 64), Imm(Pow2(8), 64), Const(Shifted(H8, z), 64));
  }

  lemma ExecWidePrologue(st: Cpu, d: Part, val: Rvalue<Name>, z: nat, s: nat)
    requires s <= 64 && HasSize(val, s) && Eval(st, val) == Const(z, s) && z < Pow2(s)
    ensures z < Bound(R64) && Sets(st, Exec(st, Prologue(Lo(d), Hi(d), val)), Temp(Val), Shifted(d, z))
  {
    hide Exec, Eval, Get, Low, Shr, Shl, Pow2, Step, Execute1, Execute2, Sets, Set, Shifted;
    var mv, zx := Do1(Move, To(Temp(Val), 64), val), Do1(ZeroExtend(64), To(Temp(Val), 64), val);
    var mul := Do2(Multiply, To(Temp(Val), 64), Var(Temp(Val), 64), Imm(Pow2(8), 64));
    PowMonotone(s, 64);
    Powers();
    ExtendStep(st, val, z, s);
    Exec1(st, mv);
    Exec1(st, zx);
    if d == H8 {
      Exec2(st, zx, mul);
      SetTwice(st, z, Shifted(H8, z));
      WideMultiply(Step(st, zx), z);
      assert Prologue(8, 16, val) == [zx, mul];
    } else {
      ShiftedSame(d, z);
      SetSets(st, Temp(Val), z);
      var pro := Prologue(Lo(d), Hi(d), val);
      assert pro == [zx] || (pro == [mv] && s == 64);
    }
  }

  lemma ShiftedSame(d: Part, z: nat)
    requires d != H8
    ensures Shifted(d, z) == z
  {
  }

  /** All names of the family after a value of any width was written to `d`. */
  ghost predicate Wrote(st': Cpu, f: Family, d: Part, r: nat, z: nat) {
    forall p :: Exists(f, p) ==> Get(st', Reg(f, p)) == NameAfter(d, p, r, z)
  }

  /** `write_reg` with a value of any width: what every name of the family holds afterwards. */
  lemma WriteAny(st: Cpu, f: Family, d: Part, val: Rvalue<Name>, z: nat, s: nat)
    requires Exists(f, d) && Coherent(st, f)
    requires s <= 64 && HasSize(val, s) && Eval(st, val) == Const(z, s) && z < Pow2(s)
    ensures var code := WriteReg(Var(Reg(f, d), Size(d)), val);
            code.Some? &&
            var st' := Exec(st, code.value);
            z < Bound(R64) && Wrote(st', f, d, R(st, f), z) && OnlyFamily(st, st', f)
  {
    hide Exec, Eval, Low, Shr, Shl, Pow2, Get, PartOf, NameAfter, WriteParts, Prologue, Shifted, Bitwise, Merged, Mask;
    var r := R(st, f);
    var pro := Prologue(Lo(d), Hi(d), val);
    var st1 := Exec(st, pro);
    ExecWidePrologue(st, d, val, z, s);
    ExecAppend(st, pro, WriteParts(f, Lo(d), Hi(d)));
    ExecWideParts(st1, f, d, r, z);
    assert WriteReg(Var(Reg(f, d), Size(d)), val).value == pro + WriteParts(f, Lo(d), Hi(d));
  }

  // ----- When the result is right -----

  /** The destination itself always holds the low bits of the value. */
  lemma DestinationRight(d: Part, r: nat, z: nat)
    requires r < Bound(R64) && z < Bound(R64)
    ensures NameAfter(d, d, r, z) == z % Bound(d)
  {
    hide NameAfter, Shifted;
    AfterCovered(d, d, r, z);
    LowOfShifted(d, z);
  }

  lemma LowOfShifted(d: Part, z: nat)
    requires z < Bound(R64)
    ensures PartOf(d, Shifted(d, z)) == z % Bound(d)
  {
    ShiftedBound(d, z);
    if d == H8 {
      hide Shifted;
      var v := Shifted(d, z);
      QuotientIs(v, 0x1_0000, v / 0x1_0000, z % 0x100 * 0x100);
      QuotientIs(v, 0x100, v / 0x1_0000 * 0x100 + z % 0x100, 0);
      QuotientIs(v / 0x100, 0x100, v / 0x1_0000, z % 0x100);
    } else if d == R64 {
      QuotientIs(z, Bound(d), 0, z);
    }
  }

  /** The bits of the value that do not fit the destination are already set in the register; a 32-bit
    destination takes a value of 32 bits only. */
  predicate Absorbed(d: Part, r: nat, z: nat) {
    match d
    case L8 => HasBits(Shr(r, 8), Shr(z, 8))
    case H8 => HasBits(Shr(r, 16), Shr(Shifted(H8, z), 16))
    case X16 => HasBits(Shr(r, 16), Shr(z, 16))
    case E32 => z < 0x1_0000_0000
    case R64 => true
  }

  /** Or-ing into a cleared low field. */
  lemma OrIntoLow(r: nat, z: nat, n: nat, base: nat, low: nat)
    requires base == Shl(Shr(r, n), n) && low == Low(z, n)
    ensures Bitwise(OrBits, base, z) == base + low <==> HasBits(Shr(r, n), Shr(z, n))
  {
    hide Bitwise, Low, Shr, Shl, Pow2;
    Reassemble(z, n);
    var or := Bitwise(OrBits, Shr(r, n), Shr(z, n));
    BitwiseSplit(OrBits, base, z, Shr(r, n), 0, Shr(z, n), low, n);
    OrZero(low);
    ShlInjective(or, Shr(r, n), n);
    OrKeepsIff(Shr(r, n), Shr(z, n));
  }

  lemma CutAt(r: nat, n: nat, m: nat)
    requires m == Pow2(n)
    ensures Shl(Shr(r, n), n) == r / m * m && Low(r, n) == r % m
  {
    hide Low, Shr, Shl, Pow2;
    LowIsRemainder(r, n, m);
    ShlIsProduct(Shr(r, n), n);
  }

  lemma {:induction false} ShlInjective(p: nat, q: nat, k: nat)
    ensures Shl(p, k) == Shl(q, k) <==> p == q
  {
    if k > 0 { ShlInjective(p, q, k - 1); }
  }

  /** Or-ing into the cleared second byte. */
  lemma OrIntoMiddle(r: nat, v: nat, b: nat)
    requires v % 0x1_0000 == b * 0x100 && b < 0x100
    ensures Bitwise(OrBits, r / 0x1_0000 * 0x1_0000 + r % 0x100, v) == r / 0x1_0000 * 0x1_0000 + b * 0x100 + r % 0x100
            <==> HasBits(Shr(r, 16), Shr(v, 16))
  {
    hide Bitwise, Low, Shr, Shl, Pow2;
    Powers();
    var l := r % 0x100;
    LowIsRemainder(r, 16, 0x1_0000);
    LowIsRemainder(v, 16, 0x1_0000);
    ShlIsProduct(Shr(r, 16), 16);
    Reassemble(v, 16);
    ShlIsProduct(b, 8);
    FillField(b * 0x100, b, l, 8);
    BitwiseCommutes(OrBits, b * 0x100, l);
    BitwiseSplit(OrBits, r / 0x1_0000 * 0x1_0000 + l, v, Shr(r, 16), l, Shr(v, 16), b * 0x100, 16);
    ShlInjective(Bitwise(OrBits, Shr(r, 16), Shr(v, 16)), Shr(r, 16), 16);
    OrKeepsIff(Shr(r, 16), Shr(v, 16));
  }

  /** The register holds what section 3.4.1.1 of volume 1 of the Intel SDM says for the low bits of the value
    iff the value is absorbed. */
  lemma MergedRightIff(d: Part, r: nat, z: nat)
    requires r < Bound(R64) && z < Bound(R64)
    ensures Merged(d, r, z) == Written(d, r, z % Bound(d)) <==> Absorbed(d, r, z)
  {
    hide Bitwise, Shr, Shl, Low, HasBits, Pow2, Shifted;
    Powers();
    match d {
      case L8 =>
        ShiftedSame(d, z);
        CutAt(r, 8, 0x100);
        CutAt(z, 8, 0x100);
        OrIntoLow(r, z, 8, r / 0x100 * 0x100, z % 0x100);
      case X16 =>
        ShiftedSame(d, z);
        CutAt(r, 16, 0x1_0000);
        CutAt(z, 16, 0x1_0000);
        OrIntoLow(r, z, 16, r / 0x1_0000 * 0x1_0000, z % 0x1_0000);
      case H8 =>
        ShiftedBound(d, z);
        OrIntoMiddle(r, Shifted(d, z), z % 0x100);
      case E32 =>
      case R64 => QuotientIs(z, Bound(d), 0, z);
    }
  }

  /** Family and register are right iff the value is absorbed. */
  lemma WroteRightIff(st': Cpu, f: Family, d: Part, r: nat, z: nat)
    requires Exists(f, d) && Wrote(st', f, d, r, z) && r < Bound(R64) && z < Bound(R64)
    ensures Coherent(st', f) && R(st', f) == Written(d, r, z % Bound(d)) <==> Absorbed(d, r, z)
  {
    hide Get, PartOf, Merged, Written, Absorbed;
    MergedBound(d, r, z);
    MergedRightIff(d, r, z);
    assert Get(st', Reg(f, R64)) == NameAfter(d, R64, r, z);
    WholeSlice(Merged(d, r, z));
    if Absorbed(d, r, z) && d == L8 {
      UntouchedPart(L8, H8, r, z % Bound(d));
    }
  }

  lemma WholeSlice(r: nat)
    ensures PartOf(R64, r) == r
  {
  }

  /** The family alone stays coherent, except that AH may miss bits or-ed into AX. */
  lemma WroteCoherentIff(st': Cpu, f: Family, d: Part, r: nat, z: nat)
    requires Exists(f, d) && Wrote(st', f, d, r, z) && r < Bound(R64) && z < Bound(R64)
    ensures Coherent(st', f) <==> !(d == L8 && Exists(f, H8)) || HasBits(PartOf(H8, r), PartOf(H8, z))
  {
    hide Get, PartOf, Merged, Bitwise, HasBits;
    MergedBound(d, r, z);
    assert Get(st', Reg(f, R64)) == NameAfter(d, R64, r, z);
    WholeSlice(Merged(d, r, z));
    if d == L8 && Exists(f, H8) {
      assert Get(st', Reg(f, H8)) == PartOf(H8, r);
      SecondByte(r, z);
      OrKeepsIff(PartOf(H8, r), PartOf(H8, z));
    }
  }

  lemma SecondByte(r: nat, z: nat)
    requires r < Bound(R64) && z < Bound(R64)
    ensures PartOf(H8, Merged(L8, r, z)) == Bitwise(OrBits, PartOf(H8, r), PartOf(H8, z))
  {
    hide Bitwise, PartOf, Written;
    ClearedBound(L8, r);
    UntouchedPart(L8, H8, r, 0);
    OrParts(H8, Written(L8, r, 0), z);
  }

  /** A value of the destination's width is always absorbed. */
  lemma FittingAbsorbed(d: Part, r: nat, z: nat)
    requires z < Bound(d)
    ensures Absorbed(d, r, z)
  {
    hide Bitwise, Pow2;
    Powers();
    if d == L8 {
      LowOfSmall(z, 8);
      AndZero(Shr(r, 8));
    } else if d == X16 {
      LowOfSmall(z, 16);
      AndZero(Shr(r, 16));
    } else if d == H8 {
      QuotientIs(z * 0x100, 0x1_0000_0000_0000_0000, 0, z * 0x100);
      LowOfSmall(z * 0x100, 16);
      AndZero(Shr(r, 16));
    }
  }
}
