/** AMD64 registers and `write_reg` (amd64/src/semantic.rs:235-439).

  Every register family has up to five names for slices of one 64-bit register. RREIL knows nothing
  of the overlap, so each write to one name must be followed by writes to all the others. */
module Registers {
  import opened Bits
  import opened Il
  import opened Rreil

  datatype Family =
    | A | B | C | D | SI | DI | BP | SP | IP
    | R8 | R9 | R10 | R11 | R12 | R13 | R14 | R15

  /** AL, AH, AX, EAX and RAX, and their counterparts. */
  datatype Part = L8 | H8 | X16 | E32 | R64

  datatype FlagName = CF | PF | AF | ZF | SF | OF
  datatype TempName = Res | Cf | Af1 | Af2 | Cf1 | Cf2 | Of1 | Of2 | HalfRes | Val | Stack

  /** `Extended` is the name with `_ext` appended. */
  datatype Name =
    | Reg(family: Family, part: Part) | Flag(flag: FlagName) | Temp(temp: TempName)
    | Extended(base: Name) | Other(other: string)

  type Stmt = Statement<Name>
  type Cpu = Machine<Name>

  function Size(p: Part): nat {
    match p case L8 => 8 case H8 => 8 case X16 => 16 case E32 => 32 case R64 => 64
  }

  predicate Exists(f: Family, p: Part) {
    match p
    case L8 => f != IP
    case H8 => f in {A, B, C, D, SI, DI}
    case _ => true
  }

  function NameCount(f: Family): nat {
    var has := (p: Part) => if Exists(f, p) then 1 else 0;
    has(L8) + has(H8) + has(X16) + has(E32) + has(R64)
  }

  /** How many names a family has. */
  lemma FamilySizes(f: Family)
    ensures NameCount(f) == match f case A | B | C | D | SI | DI => 5 case IP => 3 case _ => 4
  {
  }

  // ----- Notation of the `rreil!` macro -----

  function Var(n: Name, size: nat): Rvalue<Name> {
    Variable(n, None, 0, size)
  }

  function Slice(n: Name, size: nat, offset: nat): Rvalue<Name> {
    Variable(n, None, offset, size)
  }

  function Imm(v: nat, size: nat): Rvalue<Name> {
    Constant(Const(v, size))
  }

  function To(n: Name, size: nat): Lvalue<Name> {
    Target(n, None, size)
  }

  function Do2(op: BinaryOp, dst: Lvalue<Name>, a: Rvalue<Name>, b: Rvalue<Name>): Stmt {
    Statement(dst, Binary(op, a, b))
  }

  function Do1(op: UnaryOp, dst: Lvalue<Name>, a: Rvalue<Name>): Stmt {
    Statement(dst, Unary(op, a))
  }

  /** `Rvalue::from(lvalue)`. */
  function AsRvalue(lv: Lvalue<Name>): Rvalue<Name> {
    match lv
    case NoValue => Undefined
    case Target(n, k, size) => Variable(n, k, 0, size)
  }

  function SizeOf(rv: Rvalue<Name>): Option<nat> {
    match rv
    case Undefined => None
    case Variable(_, _, _, size) => Some(size)
    case Constant(c) => Some(c.size)
  }

  // ----- The code generator -----

  function RegOrNone(f: Family, p: Part): Lvalue<Name> {
    if Exists(f, p) then To(Reg(f, p), Size(p)) else NoValue
  }

  /** `reg_variants`: the family of a register name, None for other names. */
  function RegVariants(n: Name): Option<Family> {
    if n.Reg? && Exists(n.family, n.part) then Some(n.family) else None
  }

  function Min(a: nat, b: nat): nat {
    if a < b then a else b
  }

  /** `!((ones << lo) % (1 << end)) & ones` for `ones` of `w` bits and `end <= w`. */
  function Mask(w: nat, lo: nat, end: nat): nat
    requires end <= w
  {
    PowMonotone(end, w);
    Pow2(w) - 1 - Low(Shl(Pow2(w) - 1, lo), end)
  }

  /** Move the whole slice, or keep the masked bits and or in the rest. */
  function Blend(dst: Lvalue<Name>, mask: nat, w: nat, slice: Rvalue<Name>): seq<Stmt> {
    if mask == 0 then [Do1(Move, dst, slice)]
    else if mask < Pow2(w) - 1 then
      [Do2(And, dst, AsRvalue(dst), Imm(mask, w)), Do2(InclusiveOr, dst, AsRvalue(dst), slice)]
    else []
  }

  /** The temporary `val` sliced like the register. */
  function PartSlice(p: Part): Rvalue<Name> {
    if p == H8 then Slice(Temp(Val), 8, 8) else Var(Temp(Val), Size(p))
  }

  /** The bits of a name that stay when bits `lo` to `hi` of the register are written. */
  function PartMask(p: Part, lo: nat, hi: nat): nat {
    if p == H8 then Shr(Mask(16, lo, Min(16, hi)), 8) else Mask(Size(p), lo, Min(Size(p), hi))
  }

  /** Whether a name is looked at when bits `lo` to `hi` are written. */
  predicate Reaches(f: Family, p: Part, lo: nat, hi: nat) {
    match p
    case L8 => lo <= 7
    case H8 => hi >= 9 && lo <= 15 && Exists(f, H8)
    case X16 => lo <= 15
    case E32 => lo <= 31
    case R64 => lo <= 64
  }

  /** The statements for one of the names. 32-bit writes clear the upper half. */
  function WritePart(f: Family, p: Part, lo: nat, hi: nat): seq<Stmt> {
    if !Reaches(f, p, lo, hi) then []
    else if p == R64 && lo == 0 && hi == 32 then [Do1(Move, RegOrNone(f, p), PartSlice(p))]
    else Blend(RegOrNone(f, p), PartMask(p, lo, hi), Size(p), PartSlice(p))
  }

  function WriteParts(f: Family, lo: nat, hi: nat): seq<Stmt> {
    WritePart(f, L8, lo, hi) + WritePart(f, H8, lo, hi) + WritePart(f, X16, lo, hi) +
    WritePart(f, E32, lo, hi) + WritePart(f, R64, lo, hi)
  }

  /** The value, extended and shifted into place, goes to the temporary `val`. */
  function Prologue(lo: nat, hi: nat, val: Rvalue<Name>): seq<Stmt> {
    (if lo == 0 && hi == 64 && SizeOf(val) == Some(64) then [Do1(Move, To(Temp(Val), 64), val)]
     else [Do1(ZeroExtend(64), To(Temp(Val), 64), val)]) +
    (if lo > 0 then [Do2(Multiply, To(Temp(Val), 64), Var(Temp(Val), 64), Imm(Pow2(lo), 64))] else [])
  }

  /** `write_reg`; None stands for its error. */
  function WriteReg(reg: Rvalue<Name>, val: Rvalue<Name>): Option<seq<Stmt>> {
    if !reg.Variable? then None
    else
      match RegVariants(reg.name)
      case None => Some([Do1(Move, To(reg.name, reg.size), val)])
      case Some(f) =>
        var high := if reg == AsRvalue(RegOrNone(f, H8)) then 8 else 0;
        var lo, hi := reg.offset + high, reg.offset + reg.size + high;
        Some(Prologue(lo, hi, val) + WriteParts(f, lo, hi))
  }

  lemma WriteSucceeds(reg: Rvalue<Name>, val: Rvalue<Name>)
    requires reg.Variable?
    ensures WriteReg(reg, val).Some?
  {
  }

  // ----- What the masks are -----

  lemma MaskValue(w: nat, lo: nat, end: nat, p: nat, q: nat)
    requires end <= w && q < Pow2(end) && Shl(Pow2(w) - 1, lo) == Shl(p, end) + q
    ensures Mask(w, lo, end) == Pow2(w) - 1 - q
  {
    Disassemble(Shl(Pow2(w) - 1, lo), p, q, end);
  }

  lemma MaskAll(w: nat)
    ensures Mask(w, 0, w) == 0
  {
    ShlBit(w);
    MaskValue(w, 0, w, 0, Pow2(w) - 1);
  }

  lemma {:induction false} OnesSplit(m: nat, n: nat)
    ensures Shl(Pow2(m) - 1, n) + Pow2(n) == Pow2(m + n)
  {
    if n > 0 { OnesSplit(m, n - 1); }
  }

  /** Writing the low `n` bits keeps the others. */
  lemma MaskLow(w: nat, n: nat)
    requires n <= w
    ensures Mask(w, 0, n) == Pow2(w) - Pow2(n) == Shl(Pow2(w - n) - 1, n)
  {
    OnesSplit(w - n, n);
    MaskValue(w, 0, n, Pow2(w - n) - 1, Pow2(n) - 1);
  }

  /** Writing bits 8 to 15 keeps the others. */
  lemma MaskHigh(w: nat)
    requires w == 16 || w == 32 || w == 64
    ensures Mask(w, 8, 16) == Pow2(w) - 1 - 0xff00
  {
    Powers();
    ShlIsProduct(Pow2(w) - 1, 8);
    var p := if w == 16 then 0xff else if w == 32 then 0xff_ffff else 0xff_ffff_ffff_ffff;
    ShlIsProduct(p, 16);
    MaskValue(w, 8, 16, p, 0xff00);
  }

  // ----- Executing the pieces -----

  lemma ReadWhole(st: Cpu, n: Name, w: nat)
    requires Get(st, n) < Pow2(w)
    ensures Eval(st, Var(n, w)) == Const(Get(st, n), w)
  {
    LowOfSmall(Get(st, n), w);
  }

  /** A plain copy of `v`, which fits its destination. */
  lemma StepMove(st: Cpu, dst: Lvalue<Name>, rv: Rvalue<Name>, v: nat, w: nat)
    requires w <= 64 && Eval(st, rv) == Const(v, w) && v < Pow2(w)
    requires dst.NoValue? || dst == To(dst.name, w)
    ensures Step(st, Do1(Move, dst, rv)) == if dst.NoValue? then st else Set(st, dst.name, v)
  {
    hide Exec, Low, Shr, Shl;
    LowOfSmall(v, w);
    if dst.Target? { StepUnary(st, Move, dst.name, w, rv, Const(v, w)); }
  }

  lemma StepBitwise(st: Cpu, op: BinaryOp, bits: BitOp, n: Name, a: Rvalue<Name>, b: Rvalue<Name>, x: nat, y: nat,
                    w: nat)
    requires BitwiseOp(op, bits)
    requires w <= 64 && x < Pow2(w) && y < Pow2(w)
    requires Eval(st, a) == Const(x, w) && Eval(st, b) == Const(y, w)
    ensures Step(st, Do2(op, To(n, w), a, b)) == Set(st, n, Bitwise(bits, x, y))
    ensures Bitwise(bits, x, y) < Pow2(w)
  {
    hide Eval, Step, Execute2, Bitwise, Pow2;
    ExecuteBits(op, bits, x, y, w);
    StepBinary(st, op, n, w, a, b, Const(Bitwise(bits, x, y), w));
  }

  lemma EvalImm(st: Cpu, v: nat, w: nat)
    requires w <= 64 && v < Pow2(w)
    ensures Eval(st, Imm(v, w)) == Const(v, w)
  {
    LowOfSmall(v, w);
  }

  lemma ExecBlendMove(st: Cpu, dst: Lvalue<Name>, w: nat, off: nat)
    requires w <= 64 && (dst.NoValue? || dst == To(dst.name, w))
    ensures Exec(st, Blend(dst, 0, w, Slice(Temp(Val), w, off))) ==
            if dst.NoValue? then st else Set(st, dst.name, Low(Shr(Get(st, Temp(Val)), off), w))
  {
    var rv := Slice(Temp(Val), w, off);
    Exec1(st, Do1(Move, dst, rv));
    StepMove(st, dst, rv, Low(Shr(Get(st, Temp(Val)), off), w), w);
  }

  lemma ExecBlendMask(st: Cpu, n: Name, w: nat, mask: nat)
    requires 0 < w <= 64 && 0 < mask < Pow2(w) - 1 && n != Temp(Val) && Get(st, n) < Pow2(w)
    ensures Exec(st, Blend(To(n, w), mask, w, Var(Temp(Val), w))) ==
            Set(st, n, Bitwise(OrBits, Bitwise(AndBits, Get(st, n), mask), Low(Get(st, Temp(Val)), w)))
  {
    hide Exec, Execute2, Step, Low, Bitwise;
    var dst := To(n, w);
    var s1, s2 := Do2(And, dst, Var(n, w), Imm(mask, w)), Do2(InclusiveOr, dst, Var(n, w), Var(Temp(Val), w));
    Exec2(st, s1, s2);
    ReadWhole(st, n, w);
    EvalImm(st, mask, w);
    StepBitwise(st, And, AndBits, n, Var(n, w), Imm(mask, w), Get(st, n), mask, w);
    var st1 := Step(st, s1);
    ReadWhole(st1, n, w);
    StepBitwise(st1, InclusiveOr, OrBits, n, Var(n, w), Var(Temp(Val), w), Get(st1, n), Low(Get(st, Temp(Val)), w), w);
    assert Set(st1, n, Get(Step(st1, s2), n)) == Set(st, n, Get(Step(st1, s2), n));
  }

  // ----- Coherence -----

  function R(st: Cpu, f: Family): nat {
    Get(st, Reg(f, R64))
  }

  /** What a slice of a 64-bit value is. */
  function PartOf(p: Part, r: nat): nat {
    match p
    case L8 => r % 0x100
    case H8 => r / 0x100 % 0x100
    case X16 => r % 0x1_0000
    case E32 => r % 0x1_0000_0000
    case R64 => r
  }

  /** All names of the family agree with its 64-bit register. */
  ghost predicate Coherent(st: Cpu, f: Family) {
    && R(st, f) < 0x1_0000_0000_0000_0000
    && forall p :: Exists(f, p) ==> Get(st, Reg(f, p)) == PartOf(p, R(st, f))
  }

  /** Section 3.4.1.1 of volume 1 of the Intel SDM: 64- and 32-bit results fill the register, with
    zeros above; 16- and 8-bit results leave the other bits alone. */
  function Written(p: Part, r: nat, v: nat): nat {
    match p
    case R64 => v
    case E32 => v
    case X16 => r / 0x1_0000 * 0x1_0000 + v
    case L8 => r / 0x100 * 0x100 + v
    case H8 => r / 0x1_0000 * 0x1_0000 + v * 0x100 + r % 0x100
  }

  /** Everything outside the family and the temporary is untouched. */
  ghost predicate OnlyFamily(st: Cpu, st': Cpu, f: Family) {
    && st'.mem == st.mem && st'.junk == st.junk
    && forall n :: n != Temp(Val) && !(n.Reg? && n.family == f) ==> Get(st', n) == Get(st, n)
  }

  // ----- Which mask each pair of names gives -----

  function Lo(d: Part): nat {
    if d == H8 then 8 else 0
  }

  function Hi(d: Part): nat {
    Lo(d) + Size(d)
  }

  /** Writing `d` replaces all of `p`. */
  predicate Covers(d: Part, p: Part) {
    d == p || d == R64 || (d == E32 && p != R64) || (d == X16 && (p == L8 || p == H8))
  }

  /** Writing `d` leaves `p` alone. */
  predicate Apart(d: Part, p: Part) {
    (d == L8 && p == H8) || (d == H8 && p == L8)
  }

  lemma MaskCovered(d: Part, p: Part)
    requires Covers(d, p)
    ensures PartMask(p, Lo(d), Hi(d)) == 0
  {
    hide Low, Shr, Shl, Pow2, Mask;
    MaskAll(8); MaskAll(16); MaskAll(32); MaskAll(64);
    MaskHigh(16);
    Powers();
    LowOfSmall(0, 8);
    LowOfSmall(0xff, 8);
  }

  lemma MaskBelow(d: Part, p: Part)
    requires (d == L8 || d == X16) && !Covers(d, p) && !Apart(d, p)
    ensures Size(d) < Size(p) && p != H8 && PartMask(p, Lo(d), Hi(d)) == Shl(Pow2(Size(p) - Size(d)) - 1, Size(d))
  {
    hide Low, Shr, Shl, Pow2, Mask;
    MaskLow(Size(p), Size(d));
  }

  lemma MaskMiddle(p: Part)
    requires p == X16 || p == E32 || p == R64
    ensures PartMask(p, 8, 16) == Shl(Shl(Pow2(Size(p) - 16) - 1, 8), 8) + (Pow2(8) - 1)
  {
    hide Low, Shr, Shl, Pow2, Mask;
    var k := Pow2(Size(p) - 16) - 1;
    MaskHigh(Size(p));
    Powers();
    Pow2Add(Size(p) - 16, 16);
    ShlIsProduct(k, 8);
    ShlIsProduct(Shl(k, 8), 8);
  }

  // ----- What each name holds afterwards -----

  /** `Pow2(Size(p))`, written out. */
  function Bound(p: Part): nat {
    match p
    case L8 => 0x100
    case H8 => 0x100
    case X16 => 0x1_0000
    case E32 => 0x1_0000_0000
    case R64 => 0x1_0000_0000_0000_0000
  }

  lemma BoundIsPower(p: Part)
    ensures Pow2(Size(p)) == Bound(p)
  {
    Powers();
  }

  /** A register as its upper half, upper word and two bytes. */
  datatype Pieces = Pieces(e: nat, h: nat, b: nat, a: nat) {
    predicate Fit() {
      e < 0x1_0000_0000 && h < 0x1_0000 && b < 0x100 && a < 0x100
    }
    function Joined(): nat {
      e * 0x1_0000_0000 + h * 0x1_0000 + b * 0x100 + a
    }
    function Part(p: Part): nat {
      match p
      case L8 => a
      case H8 => b
      case X16 => b * 0x100 + a
      case E32 => h * 0x1_0000 + b * 0x100 + a
      case R64 => Joined()
    }
    /** `d` replaced by the pieces of `o`. */
    function Replace(d: Part, o: Pieces): Pieces {
      match d
      case R64 => o
      case E32 => o.(e := 0)
      case X16 => Pieces(e, h, o.b, o.a)
      case L8 => Pieces(e, h, b, o.a)
      case H8 => Pieces(e, h, o.b, a)
    }
  }

  lemma PartOfPieces(x: Pieces, p: Part)
    requires x.Fit()
    ensures PartOf(p, x.Joined()) == x.Part(p) && x.Joined() < Bound(R64)
  {
    var r, e, h, b, a := x.Joined(), x.e, x.h, x.b, x.a;
    QuotientIs(r, 0x100, e * 0x100_0000 + h * 0x100 + b, a);
    QuotientIs(r / 0x100, 0x100, e * 0x1_0000 + h, b);
    QuotientIs(r, 0x1_0000, e * 0x1_0000 + h, b * 0x100 + a);
    QuotientIs(r, 0x1_0000_0000, e, h * 0x1_0000 + b * 0x100 + a);
  }

  lemma Split(r: nat) returns (x: Pieces)
    requires r < Bound(R64)
    ensures x.Fit() && x.Joined() == r
  {
    var q, q' := r / 0x100, r / 0x100 / 0x100;
    x := Pieces(q' / 0x1_0000, q' % 0x1_0000, q % 0x100, r % 0x100);
  }

  lemma WrittenPieces(d: Part, v: nat, x: Pieces, y: Pieces)
    requires x.Fit() && y.Fit() && v < Bound(d) && y.Joined() == if d == H8 then v * 0x100 else v
    ensures Written(d, x.Joined(), v) == x.Replace(d, y).Joined() && x.Replace(d, y).Fit()
  {
    var r, e, h, b, a := x.Joined(), x.e, x.h, x.b, x.a;
    QuotientIs(r, 0x100, e * 0x100_0000 + h * 0x100 + b, a);
    QuotientIs(r, 0x1_0000, e * 0x1_0000 + h, b * 0x100 + a);
  }

  /** What each name should hold, in terms of pieces. */
  lemma PartOfWritten(d: Part, p: Part, r: nat, v: nat) returns (x: Pieces, y: Pieces)
    requires v < Bound(d) && r < Bound(R64)
    ensures x.Fit() && y.Fit() && x.Joined() == r && y.Joined() == if d == H8 then v * 0x100 else v
    ensures PartOf(p, r) == x.Part(p) && PartOf(p, y.Joined()) == y.Part(p)
    ensures PartOf(p, Written(d, r, v)) == x.Replace(d, y).Part(p) && Written(d, r, v) < Bound(R64)
  {
    hide PartOf, Written;
    x := Split(r);
    y := Split(if d == H8 then v * 0x100 else v);
    WrittenPieces(d, v, x, y);
    PartOfPieces(x, p);
    PartOfPieces(y, p);
    PartOfPieces(x.Replace(d, y), p);
  }

  lemma CoveredValue(d: Part, p: Part, r: nat, v: nat, val: nat)
    requires Covers(d, p) && v < Bound(d) && val == (if d == H8 then v * 0x100 else v) && r < Bound(R64)
    ensures PartOf(p, val) == PartOf(p, Written(d, r, v))
  {
    hide PartOf, Written;
    var x, y := PartOfWritten(d, p, r, v);
  }

  lemma BlendedValue(d: Part, p: Part, r: nat, v: nat)
    requires (d == L8 || d == X16) && !Covers(d, p) && !Apart(d, p) && v < Bound(d) && r < Bound(R64)
    ensures var x := PartOf(p, r); x - x % Bound(d) + v == PartOf(p, Written(d, r, v))
  {
    hide PartOf, Written;
    var x, y := PartOfWritten(d, p, r, v);
    var e, h := if p == R64 then x.e else 0, if p == X16 then 0 else x.h;
    var z := x.Part(p);
    assert z == e * 0x1_0000_0000 + h * 0x1_0000 + x.b * 0x100 + x.a;
    LowBytes(z, e, h, x.b, x.a);
  }

  lemma LowBytes(z: nat, e: nat, h: nat, b: nat, a: nat)
    requires b < 0x100 && a < 0x100 && z == e * 0x1_0000_0000 + h * 0x1_0000 + b * 0x100 + a
    ensures z % 0x100 == a && z % 0x1_0000 == b * 0x100 + a
  {
    QuotientIs(z, 0x100, e * 0x100_0000 + h * 0x100 + b, a);
    QuotientIs(z, 0x1_0000, e * 0x1_0000 + h, b * 0x100 + a);
  }

  lemma MiddleValue(p: Part, r: nat, v: nat)
    requires (p == X16 || p == E32 || p == R64) && v < 0x100 && r < Bound(R64)
    ensures var x := PartOf(p, r); x / 0x1_0000 * 0x1_0000 + v * 0x100 + x % 0x100 == PartOf(p, Written(H8, r, v))
  {
    hide PartOf, Written;
    var x, y := PartOfWritten(H8, p, r, v);
    var e, h := if p == R64 then x.e else 0, if p == X16 then 0 else x.h;
    var z := x.Part(p);
    assert z == e * 0x1_0000_0000 + h * 0x1_0000 + x.b * 0x100 + x.a;
    MiddleReplaced(z, e, h, x.b, x.a, v);
    assert y.b == v;
  }

  lemma MiddleReplaced(z: nat, e: nat, h: nat, b: nat, a: nat, v: nat)
    requires b < 0x100 && a < 0x100 && z == e * 0x1_0000_0000 + h * 0x1_0000 + b * 0x100 + a
    ensures z / 0x1_0000 * 0x1_0000 + v * 0x100 + z % 0x100 == e * 0x1_0000_0000 + h * 0x1_0000 + v * 0x100 + a
  {
    QuotientIs(z, 0x1_0000, e * 0x1_0000 + h, b * 0x100 + a);
    QuotientIs(z, 0x100, e * 0x100_0000 + h * 0x100 + b, a);
  }

  /** One name gets a value, nothing else changes. */
  ghost predicate Sets(st: Cpu, st': Cpu, n: Name, v: nat) {
    && st'.mem == st.mem && st'.junk == st.junk
    && Get(st', n) == v
    && forall m :: m != n ==> Get(st', m) == Get(st, m)
  }

  ghost predicate SetsPart(st: Cpu, st': Cpu, f: Family, p: Part, v: nat) {
    if Exists(f, p) then Sets(st, st', Reg(f, p), v) else st' == st
  }

  lemma SetSets(st: Cpu, n: Name, v: nat)
    ensures Sets(st, Set(st, n, v), n, v)
  {
  }

  lemma SliceValue(p: Part, v: nat)
    requires v < Bound(R64)
    ensures PartOf(p, v) == if p == H8 then Low(Shr(v, 8), 8) else Low(v, Size(p))
  {
    hide Low, Shr;
    Powers();
    match p {
      case L8 => LowIsRemainder(v, 8, 0x100);
      case H8 => LowIsRemainder(v, 8, 0x100); LowIsRemainder(v / 0x100, 8, 0x100);
      case X16 => LowIsRemainder(v, 16, 0x1_0000);
      case E32 => LowIsRemainder(v, 32, 0x1_0000_0000);
      case R64 => LowOfSmall(v, 64);
    }
  }

  /** A plain move gives the slice of `val` its name stands for. */
  lemma ExecMovePart(st: Cpu, f: Family, p: Part, val: nat)
    requires Get(st, Temp(Val)) == val < Bound(R64)
    ensures SetsPart(st, Exec(st, [Do1(Move, RegOrNone(f, p), PartSlice(p))]), f, p, PartOf(p, val))
  {
    hide Low, Shr, Exec, Step, Get, PartOf, Pow2;
    var off := if p == H8 then 8 else 0;
    ExecBlendMove(st, RegOrNone(f, p), Size(p), off);
    SliceValue(p, val);
    assert PartSlice(p) == Slice(Temp(Val), Size(p), off);
    assert Shr(val, 0) == val by { ShiftNone(val); }
    SetSets(st, Reg(f, p), PartOf(p, val));
  }

  lemma ShiftNone(x: nat)
    ensures Shr(x, 0) == x
  {
  }

  /** Keeping the bits above the lowest `n` and or-ing in `v`. */
  lemma ExecBlendLow(st: Cpu, name: Name, w: nat, n: nat, m: nat, mask: nat, x: nat, kept: nat, v: nat)
    requires 0 < n < w <= 64 && m == Pow2(n) && mask == Shl(Pow2(w - n) - 1, n) && name != Temp(Val)
    requires Get(st, name) == x < Pow2(w) && Get(st, Temp(Val)) == v < m && x == kept + x % m
    ensures Sets(st, Exec(st, Blend(To(name, w), mask, w, Var(Temp(Val), w))), name, kept + v)
  {
    hide Exec, Blend, Get, Low, Shl, Shr, Bitwise, Pow2;
    MaskLow(w, n);
    PowStrict(n, w);
    PowStrict(0, n);
    SmallPowers();
    ExecBlendMask(st, name, w, mask);
    LowOfSmall(v, w);
    ClearedField(x, w, n, m, mask);
    FillField(Bitwise(AndBits, x, mask), Shr(x, n), v, n);
    SetSets(st, name, kept + v);
  }

  lemma {:induction false} PowStrict(m: nat, n: nat)
    requires m < n
    ensures Pow2(m) < Pow2(n)
  {
    PowMonotone(m, n - 1);
  }

  lemma ClearedField(x: nat, w: nat, n: nat, m: nat, mask: nat)
    requires n < w && m == Pow2(n) && mask == Shl(Pow2(w - n) - 1, n) && x < Pow2(w)
    ensures Bitwise(AndBits, x, mask) == Shl(Shr(x, n), n) == x - x % m
  {
    hide Low, Shl, Shr, Bitwise;
    Reassemble(x, n);
    LowIsRemainder(x, n, m);
    ShrBound(x, n, w - n);
    ClearField(x, mask, Shr(x, n), Low(x, n), n, w - n);
  }

  lemma {:induction false} ShrBound(x: nat, n: nat, k: nat)
    requires x < Pow2(n + k)
    ensures Shr(x, n) < Pow2(k)
    decreases n
  {
    if n > 0 { ShrBound(x / 2, n - 1, k); }
  }

  /** Bits 8 to 15 replaced by `v`. */
  lemma ReplacedMiddle(x: nat, w: nat, mask: nat, v: nat)
    requires 16 <= w <= 64 && x < Pow2(w) && v < 0x100
    requires mask == Shl(Shl(Pow2(w - 16) - 1, 8), 8) + (Pow2(8) - 1)
    ensures Bitwise(OrBits, Bitwise(AndBits, x, mask), v * 0x100) == x / 0x1_0000 * 0x1_0000 + v * 0x100 + x % 0x100
  {
    hide Low, Shl, Shr, Bitwise, Pow2;
    Powers();
    var y := Shr(x, 8);
    var top := Shr(y, 8);
    Reassemble(x, 8);
    Reassemble(y, 8);
    LowIsRemainder(x, 8, 0x100);
    LowIsRemainder(y, 8, 0x100);
    ShrBound(x, 8, w - 8);
    ShrBound(y, 8, w - 16);
    ShlIsProduct(v, 8);
    ReplaceField(x, mask, v * 0x100, top, Low(y, 8), Low(x, 8), v, 8, 8, w - 16);
    ShlIsProduct(top, 8);
    ShlIsProduct(Shl(top, 8) + v, 8);
    QuotientIs(x, 0x1_0000, top, y % 0x100 * 0x100 + x % 0x100);
  }

  lemma MiddleMaskBounds(w: nat, mask: nat)
    requires 16 <= w && mask == Shl(Shl(Pow2(w - 16) - 1, 8), 8) + (Pow2(8) - 1)
    ensures 0 < mask < Pow2(w) - 1
  {
    hide Shl, Pow2;
    var k := Pow2(w - 16) - 1;
    Powers();
    Pow2Add(w - 16, 16);
    ShlIsProduct(k, 8);
    ShlIsProduct(Shl(k, 8), 8);
  }

  lemma ExecBlendMiddle(st: Cpu, name: Name, w: nat, mask: nat, x: nat, v: nat)
    requires 16 <= w <= 64 && mask == Shl(Shl(Pow2(w - 16) - 1, 8), 8) + (Pow2(8) - 1) && name != Temp(Val)
    requires Get(st, name) == x < Pow2(w) && Get(st, Temp(Val)) == v * 0x100 && v < 0x100
    ensures Sets(st, Exec(st, Blend(To(name, w), mask, w, Var(Temp(Val), w))), name,
                 x / 0x1_0000 * 0x1_0000 + v * 0x100 + x % 0x100)
  {
    hide Exec, Blend, Get, Low, Shl, Shr, Bitwise, Pow2;
    MiddleMaskBounds(w, mask);
    ExecBlendMask(st, name, w, mask);
    assert v * 0x100 < Pow2(w) by { Powers(); PowMonotone(16, w); }
    LowOfSmall(v * 0x100, w);
    ReplacedMiddle(x, w, mask, v);
    SetSets(st, name, x / 0x1_0000 * 0x1_0000 + v * 0x100 + x % 0x100);
  }

  /** The statements for one name give it its slice of the written register. */
  lemma ExecPart(st: Cpu, f: Family, d: Part, p: Part, r: nat, v: nat, code: seq<Stmt>)
    requires code == WritePart(f, p, Lo(d), Hi(d))
    requires Exists(f, d) && r < Bound(R64) && v < Bound(d) && Get(st, Temp(Val)) == if d == H8 then v * 0x100 else v
    requires Exists(f, p) ==> Get(st, Reg(f, p)) == PartOf(p, r)
    ensures SetsPart(st, Exec(st, code), f, p, PartOf(p, Written(d, r, v)))
  {
    hide Get, Mask, Pow2, PartMask, PartOf, Written, Low, Shr, Shl;
    if !Reaches(f, p, Lo(d), Hi(d)) {
      if Exists(f, p) { UntouchedPart(d, p, r, v); }
    } else if Covers(d, p) || (d == E32 && p == R64) {
      ExecCovered(st, f, d, p, r, v, code);
    } else {
      assert !Apart(d, p);
      ExecBlended(st, f, d, p, r, v, code);
    }
  }

  lemma UntouchedPart(d: Part, p: Part, r: nat, v: nat)
    requires v < Bound(d) && r < Bound(R64) && Apart(d, p)
    ensures PartOf(p, r) == PartOf(p, Written(d, r, v))
  {
    hide PartOf, Written;
    var x, y := PartOfWritten(d, p, r, v);
  }

  lemma ExecCovered(st: Cpu, f: Family, d: Part, p: Part, r: nat, v: nat, code: seq<Stmt>)
    requires code == WritePart(f, p, Lo(d), Hi(d)) && Reaches(f, p, Lo(d), Hi(d))
    requires Covers(d, p) || (d == E32 && p == R64)
    requires r < Bound(R64) && v < Bound(d) && Get(st, Temp(Val)) == if d == H8 then v * 0x100 else v
    ensures SetsPart(st, Exec(st, code), f, p, PartOf(p, Written(d, r, v)))
  {
    hide Get, Mask, Pow2, PartMask, PartOf, Low, Shr, Shl, Exec, Step, SetsPart;
    var val := Get(st, Temp(Val));
    if Covers(d, p) { MaskCovered(d, p); CoveredValue(d, p, r, v, val); }
    ExecMovePart(st, f, p, val);
  }

  lemma PartBound(p: Part, r: nat)
    requires r < Bound(R64)
    ensures PartOf(p, r) < Bound(p)
  {
  }

  lemma ExecBlended(st: Cpu, f: Family, d: Part, p: Part, r: nat, v: nat, code: seq<Stmt>)
    requires code == WritePart(f, p, Lo(d), Hi(d)) && Reaches(f, p, Lo(d), Hi(d))
    requires !Covers(d, p) && !Apart(d, p) && !(d == E32 && p == R64)
    requires r < Bound(R64) && v < Bound(d) && Get(st, Temp(Val)) == if d == H8 then v * 0x100 else v
    requires Exists(f, p) ==> Get(st, Reg(f, p)) == PartOf(p, r)
    ensures SetsPart(st, Exec(st, code), f, p, PartOf(p, Written(d, r, v)))
  {
    hide Get, Mask, Pow2, PartMask, PartOf, Written, Low, Shr, Shl, Exec, Step, Sets, Blend, Bound;
    BoundIsPower(p);
    BoundIsPower(d);
    PartBound(p, r);
    var mask := PartMask(p, Lo(d), Hi(d));
    if d == H8 {
      MaskMiddle(p);
      assert v < 0x100 by { BoundOfBytes(); }
      ExecBlendMiddle(st, Reg(f, p), Size(p), mask, PartOf(p, r), v);
      MiddleValue(p, r, v);
    } else {
      MaskBelow(d, p);
      BlendedValue(d, p, r, v);
      var x := PartOf(p, r);
      assert x % Bound(d) <= x by { RemainderBound(x, Bound(d)); }
      ExecBlendLow(st, Reg(f, p), Size(p), Size(d), Bound(d), mask, x, x - x % Bound(d), v);
    }
  }

  lemma RemainderBound(x: nat, m: nat)
    requires m > 0
    ensures x % m <= x
  {
    if x < m {
      QuotientIs(x, m, 0, x);
    }
  }

  lemma BoundOfBytes()
    ensures Bound(H8) == 0x100 == Bound(L8)
  {
  }

  // ----- The whole write -----

  /** The place of a name in the order of the writes. */
  function Rank(p: Part): nat {
    match p case L8 => 0 case H8 => 1 case X16 => 2 case E32 => 3 case R64 => 4
  }

  /** The first `k` names hold slices of `r'`, the others still slices of `r`. */
  ghost predicate Staged(st: Cpu, st': Cpu, f: Family, k: nat, r: nat, r': nat) {
    && st'.mem == st.mem && st'.junk == st.junk
    && (forall p :: Exists(f, p) ==> Get(st', Reg(f, p)) == PartOf(p, if Rank(p) < k then r' else r))
    && (forall n: Name :: !(n.Reg? && n.family == f) ==> Get(st', n) == Get(st, n))
  }

  lemma StagePart(st0: Cpu, st: Cpu, f: Family, d: Part, p: Part, r: nat, v: nat)
    requires Staged(st0, st, f, Rank(p), r, Written(d, r, v))
    requires Exists(f, d) && r < Bound(R64) && v < Bound(d) && Get(st0, Temp(Val)) == if d == H8 then v * 0x100 else v
    ensures Staged(st0, Exec(st, WritePart(f, p, Lo(d), Hi(d))), f, Rank(p) + 1, r, Written(d, r, v))
  {
    hide Get, PartOf, Written, WritePart, Exec, Bound, Lo, Hi, Rank, SetsPart;
    var code := WritePart(f, p, Lo(d), Hi(d));
    assert Get(st, Temp(Val)) == Get(st0, Temp(Val));
    ExecPart(st, f, d, p, r, v, code);
    StageNext(st0, st, Exec(st, code), f, p, r, Written(d, r, v));
  }

  lemma StageNext(st0: Cpu, st: Cpu, st': Cpu, f: Family, p: Part, r: nat, r': nat)
    requires Staged(st0, st, f, Rank(p), r, r') && SetsPart(st, st', f, p, PartOf(p, r'))
    ensures Staged(st0, st', f, Rank(p) + 1, r, r')
  {
    hide Get, PartOf, Exists;
    forall q | Exists(f, q)
      ensures Get(st', Reg(f, q)) == PartOf(q, if Rank(q) < Rank(p) + 1 then r' else r)
    {
      if q != p {
        assert Get(st', Reg(f, q)) == Get(st, Reg(f, q));
      }
    }
  }

  lemma ExecWriteParts(st: Cpu, f: Family, d: Part, r: nat, v: nat)
    requires Staged(st, st, f, 0, r, Written(d, r, v))
    requires Exists(f, d) && r < Bound(R64) && v < Bound(d) && Get(st, Temp(Val)) == if d == H8 then v * 0x100 else v
    ensures Staged(st, Exec(st, WriteParts(f, Lo(d), Hi(d))), f, 5, r, Written(d, r, v))
  {
    hide Get, PartOf, Written, WritePart, Exec, Bound, Lo, Hi, Staged, Exists;
    var lo, hi := Lo(d), Hi(d);
    Exec5(st, WritePart(f, L8, lo, hi), WritePart(f, H8, lo, hi), WritePart(f, X16, lo, hi),
          WritePart(f, E32, lo, hi), WritePart(f, R64, lo, hi));
    StagePart(st, st, f, d, L8, r, v);
    var s1 := Exec(st, WritePart(f, L8, lo, hi));
    StagePart(st, s1, f, d, H8, r, v);
    var s2 := Exec(s1, WritePart(f, H8, lo, hi));
    StagePart(st, s2, f, d, X16, r, v);
    var s3 := Exec(s2, WritePart(f, X16, lo, hi));
    StagePart(st, s3, f, d, E32, r, v);
    var s4 := Exec(s3, WritePart(f, E32, lo, hi));
    StagePart(st, s4, f, d, R64, r, v);
  }

  lemma Exec5(st: Cpu, a: seq<Stmt>, b: seq<Stmt>, c: seq<Stmt>, d: seq<Stmt>, e: seq<Stmt>)
    ensures Exec(st, a + b + c + d + e) == Exec(Exec(Exec(Exec(Exec(st, a), b), c), d), e)
  {
    hide Exec;
    ExecAppend(st, a + b + c + d, e);
    ExecAppend(st, a + b + c, d);
    ExecAppend(st, a + b, c);
    ExecAppend(st, a, b);
  }

  /** The prologue leaves the shifted value in the temporary `val`. */
  lemma ExecPrologue(st: Cpu, d: Part, val: Rvalue<Name>, v: nat)
    requires Eval(st, val) == Const(v, Size(d)) && v < Bound(d)
    ensures Sets(st, Exec(st, Prologue(Lo(d), Hi(d), val)), Temp(Val), if d == H8 then v * 0x100 else v)
  {
    hide Exec, Eval, Get, Low, Shr, Shl, Pow2, Step, Execute1, Execute2, Sets, Set;
    BoundIsPower(d);
    var w := Size(d);
    var mv, zx := Do1(Move, To(Temp(Val), 64), val), Do1(ZeroExtend(64), To(Temp(Val), 64), val);
    var mul := Do2(Multiply, To(Temp(Val), 64), Var(Temp(Val), 64), Imm(Pow2(8), 64));
    assert v < Pow2(64) by { PowMonotone(w, 64); }
    ExtendStep(st, val, v, w);
    if d == H8 {
      var s1 := Step(st, zx);
      Exec2(st, zx, mul);
      SetTwice(st, v, v * 0x100);
      MultiplyStep(s1, v);
      assert Prologue(8, 16, val) == [zx, mul];
    } else if d == R64 {
      Exec1(st, mv);
      Exec1(st, zx);
      SetSets(st, Temp(Val), v);
      assert Prologue(0, 64, val) == [mv] || Prologue(0, 64, val) == [zx];
    } else {
      Exec1(st, zx);
      SetSets(st, Temp(Val), v);
      assert Prologue(0, w, val) == [zx];
    }
  }

  lemma ExtendStep(st: Cpu, val: Rvalue<Name>, v: nat, w: nat)
    requires w <= 64 && Eval(st, val) == Const(v, w) && v < Pow2(w) && v < Pow2(64)
    ensures Step(st, Do1(ZeroExtend(64), To(Temp(Val), 64), val)) == Set(st, Temp(Val), v)
    ensures w == 64 ==> Step(st, Do1(Move, To(Temp(Val), 64), val)) == Set(st, Temp(Val), v)
  {
    hide Low, Shr, Shl, Eval, Pow2;
    LowOfSmall(v, w);
    LowOfSmall(v, 64);
    StepUnary(st, ZeroExtend(64), Temp(Val), 64, val, Const(v, 64));
  }

  lemma MultiplyStep(st: Cpu, v: nat)
    requires Get(st, Temp(Val)) == v < 0x100
    ensures Step(st, Do2(Multiply, To(Temp(Val), 64), Var(Temp(Val), 64), Imm(Pow2(8), 64))) ==
            Set(st, Temp(Val), v * 0x100)
  {
    hide Low, Shr, Shl, Eval, Pow2, Step, Execute2, Get;
    Powers();
    ReadWhole(st, Temp(Val), 64);
    EvalImm(st, Pow2(8), 64);
    LowOfSmall(v * 0x100, 64);
    ExecuteValue(Multiply, v, 0x100, 64, v * 0x100, v * 0x100);
    StepBinary(st, Multiply, Temp(Val), 64, Var(Temp(Val), 64), Imm(Pow2(8), 64), Const(v * 0x100, 64));
  }

  lemma SetTwice(st: Cpu, v: nat, v': nat)
    ensures Get(Set(st, Temp(Val), v), Temp(Val)) == v
    ensures Sets(st, Set(Set(st, Temp(Val), v), Temp(Val), v'), Temp(Val), v')
  {
  }

  /** `write_reg` with a value of the register's width: all names of the family stay slices of its
    64-bit register, which holds what section 3.4.1.1 says, and nothing else changes. */
  lemma WriteRegCorrect(st: Cpu, f: Family, d: Part, val: Rvalue<Name>, v: nat)
    requires Exists(f, d) && Coherent(st, f) && Eval(st, val) == Const(v, Size(d)) && v < Pow2(Size(d))
    ensures var code := WriteReg(Var(Reg(f, d), Size(d)), val);
            code.Some? &&
            var st' := Exec(st, code.value);
            Coherent(st', f) && R(st', f) == Written(d, R(st, f), v) && OnlyFamily(st, st', f)
  {
    hide Exec, Eval, Low, Shr, Shl, Pow2, Get, PartOf, Written, WriteParts, Prologue;
    BoundIsPower(d);
    var r := R(st, f);
    var pro := Prologue(Lo(d), Hi(d), val);
    var st1 := Exec(st, pro);
    ExecPrologue(st, d, val, v);
    ExecAppend(st, pro, WriteParts(f, Lo(d), Hi(d)));
    ExecWriteParts(st1, f, d, r, v);
    var x, y := PartOfWritten(d, R64, r, v);
    assert WriteReg(Var(Reg(f, d), Size(d)), val).value == pro + WriteParts(f, Lo(d), Hi(d));
    StagesDone(st, st1, Exec(st1, WriteParts(f, Lo(d), Hi(d))), f, r, Written(d, r, v));
  }

  lemma StagesDone(st: Cpu, st1: Cpu, st': Cpu, f: Family, r: nat, r': nat)
    requires st1.mem == st.mem && st1.junk == st.junk && r' < Bound(R64)
    requires forall n :: n != Temp(Val) ==> Get(st1, n) == Get(st, n)
    requires Staged(st1, st', f, 5, r, r')
    ensures Coherent(st', f) && R(st', f) == r' && OnlyFamily(st, st', f)
  {
    hide Get;
  }

  // ----- Any sequence of writes -----

  ghost predicate AllCoherent(st: Cpu) {
    forall f :: Coherent(st, f)
  }

  /** A value of `size` bits. */
  predicate HasSize(val: Rvalue<Name>, size: nat) {
    SizeOf(val) == Some(size)
  }

  lemma ValueFits(st: Cpu, val: Rvalue<Name>, w: nat)
    requires HasSize(val, w) && w <= 64
    ensures Eval(st, val).size == w && Eval(st, val).value < Pow2(w)
  {
    hide Low, Shr, Pow2;
  }

  lemma CoherenceKept(st: Cpu, f: Family, d: Part, val: Rvalue<Name>, st': Cpu)
    requires AllCoherent(st) && Exists(f, d) && HasSize(val, Size(d))
    requires st' == Exec(st, WriteReg(Var(Reg(f, d), Size(d)), val).value)
    ensures AllCoherent(st') && OnlyFamily(st, st', f)
    ensures R(st', f) == Written(d, R(st, f), Eval(st, val).value) && forall g :: g != f ==> R(st', g) == R(st, g)
  {
    hide Exec, Eval, WriteReg, Get, Written, Pow2, PartOf, Exists;
    ValueFits(st, val, Size(d));
    WriteRegCorrect(st, f, d, val, Eval(st, val).value);
    forall g ensures Coherent(st', g) && (g != f ==> R(st', g) == R(st, g)) {
      if g != f { OthersCoherent(st, st', f, g); }
    }
  }

  lemma OthersCoherent(st: Cpu, st': Cpu, f: Family, g: Family)
    requires Coherent(st, g) && OnlyFamily(st, st', f) && g != f
    ensures Coherent(st', g) && R(st', g) == R(st, g)
  {
    hide Get, PartOf, Exists;
    assert forall p :: Get(st', Reg(g, p)) == Get(st, Reg(g, p));
  }

  /** One call of `write_reg`. */
  datatype RegWrite = RegWrite(f: Family, d: Part, val: Rvalue<Name>) {
    predicate Valid() {
      Exists(f, d) && HasSize(val, Size(d))
    }
    function Apply(st: Cpu): Cpu {
      Exec(st, WriteReg(Var(Reg(f, d), Size(d)), val).value)
    }
  }

  function WriteAll(st: Cpu, ws: seq<RegWrite>): Cpu
    decreases |ws|
  {
    if ws == [] then st else WriteAll(ws[0].Apply(st), ws[1..])
  }

  /** The 64-bit register `f`, with value `r` at first, after the writes that concern it. */
  function RegisterAfter(r: nat, f: Family, st: Cpu, ws: seq<RegWrite>): nat
    decreases |ws|
  {
    if ws == [] then r
    else
      var w := ws[0];
      RegisterAfter(if w.f == f then Written(w.d, r, Eval(st, w.val).value) else r, f, w.Apply(st), ws[1..])
  }

  /** Whatever is written in whatever order, every family stays coherent and every 64-bit register
    holds the result of the writes to its own family. */
  lemma {:induction false} AnyWritesKeepCoherence(st: Cpu, ws: seq<RegWrite>)
    requires AllCoherent(st) && forall w :: w in ws ==> w.Valid()
    ensures AllCoherent(WriteAll(st, ws)) && WriteAll(st, ws).mem == st.mem
    ensures forall f :: R(WriteAll(st, ws), f) == RegisterAfter(R(st, f), f, st, ws)
    ensures forall n: Name :: !n.Reg? && n != Temp(Val) ==> Get(WriteAll(st, ws), n) == Get(st, n)
    decreases |ws|
  {
    hide Exec, Eval, WriteReg, Get, Written, Pow2, Coherent, R;
    if ws != [] {
      var w := ws[0];
      var st1 := w.Apply(st);
      assert w in ws && w.Valid();
      CoherenceKept(st, w.f, w.d, w.val, st1);
      AnyWritesKeepCoherence(st1, ws[1..]);
    }
  }

  /** The machine with all registers zero is coherent. */
  lemma PowerOnCoherent(mem: map<nat, nat>, ws: seq<RegWrite>)
    requires forall w :: w in ws ==> w.Valid()
    ensures AllCoherent(Machine(map[], mem, 0)) && AllCoherent(WriteAll(Machine(map[], mem, 0), ws))
  {
    hide WriteReg, Exec;
    var st: Cpu := Machine(map[], mem, 0);
    forall f ensures Coherent(st, f) { assert R(st, f) == 0; }
    AnyWritesKeepCoherence(st, ws);
  }
}
