/** The instruction decoder `read` (amd64/src/disassembler.rs:2096-2140, 2329-2920).

  Opcode tables, operand layouts, register lookup and semantic functions are arbitrary: `Tables` holds
  one function for each. What is modelled is which bytes are looked at, and which are consumed. */
module Decoder {
  import opened Il
  import opened Layers

  datatype Mode = Real | Protected | Long
  datatype Segment = NoSegment | Cs | Ss | Ds | Es | Fs | Gs
  datatype Hint = NoHint | Taken | NotTaken
  datatype Simd = NoSimd | F2 | F3 | P66
  datatype Escape = NoEscape | E0F | E0F0F | E0F38 | E0F3A | Xop8 | Xop9 | XopA

  datatype Prefix = Prefix(
    lock: bool, repe: bool, repne: bool, segment: Segment, hint: Hint,
    operandSize: nat, addressSize: nat, simdSize: nat, simd: Simd, escape: Escape, vvvv: Option<nat>,
    rexR: bool, rexB: bool, rexX: bool, rexW: bool)

  datatype Spec = UndefinedOpcode | EscapeOpcode | Single(name: string) | Group(group: int)
  datatype Only = NoOption | Default64 | Force64 | Only64 | Invalid64

  /** How an operand specification `S` is encoded: not at all, by immediates of given sizes, by the
    ModR/M byte, or by ModR/M, SIB and displacement. */
  datatype Layout = Nothing | Immediates(sizes: seq<nat>) | InModrm | Address

  datatype Opcode<S> = Opcode(spec: Spec, option: Only, operands: seq<S>)

  datatype Modrm = Modrm(mod_: nat, reg: nat, rm: nat)
  datatype Sib = Sib(value: byte, displacement: seq<byte>)

  /** What was read for an operand. */
  datatype Raw = Raw(modrm: Option<Modrm>, sib: Option<Sib>, bytes: seq<byte>, end: nat)

  /** W, R, X and B of a REX or VEX prefix. */
  datatype Rex = Rex(w: bool, r: bool, x: bool, b: bool)

  datatype Tables<!S, !O, !R> = Tables(
    first: (Mode, Escape, Simd, byte) -> Option<Opcode<S>>,
    x87Memory: (byte, nat) -> Option<Opcode<S>>,
    x87Register: (byte, nat) -> Option<Opcode<S>>,
    group: (int, byte, byte, Simd, Mode, bool) -> Option<Opcode<S>>,
    layout: (S, nat, nat, bool) -> Option<Layout>,
    register: (nat, bool, nat) -> bool,
    operand: (S, Raw, Mode, Prefix, Option<Rex>, nat) -> Option<O>,
    semantics: (Opcode<S>, seq<O>, nat) -> Option<R>)

  /** A decoded instruction; `looked` counts the bytes the decoder looked at. */
  datatype Decoded<R> = Decoded(len: nat, result: R, looked: nat)

  function At(buf: seq<byte>, i: nat): Option<byte> {
    if i < |buf| then Some(buf[i]) else None
  }

  // ----- Prefixes -----

  /** The variables of the prefix loop. */
  datatype Scan = Scan(i: nat, prefix: Prefix, vex: bool, rex: bool)

  datatype Outcome = Continue(next: Scan) | Stop(last: Scan) | Fail

  function Start(mode: Mode): Scan {
    var (address, operand) := match mode case Real => (16, 16) case Protected => (32, 32) case Long => (64, 32);
    Scan(0,
         Prefix(false, false, false, NoSegment, NoHint, operand, address, 128, NoSimd, NoEscape, None, false, false,
                false, false),
         false, false)
  }

  function SimdOf(v: nat): Simd {
    match v % 4 case 0 => NoSimd case 1 => P66 case 2 => F3 case _ => F2
  }

  predicate BitSet(v: nat, bit: nat) {
    if bit == 0 then v % 2 == 1 else BitSet(v / 2, bit - 1)
  }

  function Group1(p: Prefix, b: nat, i: nat): Prefix {
    if p.lock || p.repe || p.repne then p
    else if b == 0xf0 then p.(lock := true)
    else if b == 0xf2 then p.(repne := true, simd := if i == 0 then F2 else p.simd)
    else p.(repe := true, simd := if i == 0 then F3 else p.simd)
  }

  function Group2(p: Prefix, b: nat): Prefix {
    if p.segment != NoSegment then p
    else if b == 0x2e then p.(segment := Cs, hint := NotTaken)
    else if b == 0x36 then p.(segment := Ss)
    else if b == 0x3e then p.(segment := Ds, hint := Taken)
    else if b == 0x26 then p.(segment := Es)
    else if b == 0x64 then p.(segment := Fs)
    else p.(segment := Gs)
  }

  function OperandOverride(p: Prefix, mode: Mode, i: nat): Prefix {
    p.(operandSize := if mode == Real then 32 else 16, simd := if i == 0 then P66 else p.simd)
  }

  function AddressOverride(p: Prefix, mode: Mode): Prefix {
    p.(addressSize := if mode == Protected then 16 else 32)
  }

  function Vex2(p: Prefix, v: nat): Prefix {
    p.(simd := SimdOf(v), escape := E0F, simdSize := if BitSet(v, 2) then 256 else p.simdSize,
       vvvv := Some(15 - v / 8 % 16), rexR := !BitSet(v, 6))
  }

  function MapEscape(m: nat): Option<Escape> {
    if m == 1 then Some(E0F) else if m == 2 then Some(E0F38) else if m == 3 then Some(E0F3A) else None
  }

  function Vex3(p: Prefix, v1: nat, v2: nat, e: Escape): Prefix {
    p.(simd := SimdOf(v2), escape := e, simdSize := if BitSet(v2, 2) then 256 else p.simdSize,
       vvvv := Some(15 - v2 / 8 % 16),
       rexR := !BitSet(v1, 6), rexX := !BitSet(v1, 5), rexB := !BitSet(v1, 4), rexW := !BitSet(v2, 6))
  }

  function Evex(p: Prefix, p0: nat, p1: nat, p2: nat, e: Escape): Prefix {
    p.(simd := SimdOf(p1), escape := e, simdSize := if BitSet(p2, 5) then 256 else p.simdSize,
       vvvv := Some(15 - p1 / 8 % 16),
       rexR := !BitSet(p0, 6), rexX := !BitSet(p0, 5), rexB := !BitSet(p0, 4), rexW := !BitSet(p1, 6))
  }

  function XopEscape(m: nat): Option<Escape> {
    if m == 8 then Some(Xop8) else if m == 9 then Some(Xop9) else if m == 10 then Some(XopA) else None
  }

  function RexPrefix(p: Prefix, v: nat): Prefix {
    p.(rexW := BitSet(v, 3), rexR := BitSet(v, 2), rexX := BitSet(v, 1), rexB := BitSet(v, 0),
       operandSize := if BitSet(v, 3) && p.operandSize == 32 then 64 else p.operandSize)
  }

  /** The multi-byte prefixes, at the start in long mode only; reading behind the buffer is a panic. */
  function LongPrefix(buf: seq<byte>, s: Scan, b: nat): Outcome
    requires s.i == 0
  {
    var p := s.prefix;
    if b == 0xc5 then
      if |buf| < 2 then Fail else Stop(Scan(2, Vex2(p, buf[1] as nat), true, true))
    else if b == 0x62 then
      if |buf| < 4 then Fail
      else
        match MapEscape(buf[1] as nat % 4)
        case None => Fail
        case Some(e) => Stop(Scan(4, Evex(p, buf[1] as nat, buf[2] as nat, buf[3] as nat, e), true, true))
    else if |buf| < 3 then Fail
    else if b == 0xc4 then
      match MapEscape(buf[1] as nat % 16)
      case None => Fail
      case Some(e) => Stop(Scan(3, Vex3(p, buf[1] as nat, buf[2] as nat, e), true, true))
    else
      match XopEscape(buf[1] as nat % 16)
      case None => Fail
      case Some(e) => Stop(Scan(3, p.(simd := SimdOf(buf[2] as nat), escape := e), true, s.rex))
  }

  /** One round of the prefix loop. */
  function PrefixStep(mode: Mode, buf: seq<byte>, s: Scan): (r: Outcome)
    ensures r.Continue? ==> r.next.i == s.i + 1
    ensures r.Stop? ==> r.last.i >= s.i
  {
    var p := s.prefix;
    if s.i >= |buf| then Stop(s)
    else
      var b := buf[s.i] as nat;
      var next := s.(i := s.i + 1);
      if b in {0xf0, 0xf2, 0xf3} then Continue(next.(prefix := Group1(p, b, s.i)))
      else if b in {0x2e, 0x36, 0x3e, 0x26, 0x64, 0x65} then Continue(next.(prefix := Group2(p, b)))
      else if b == 0x66 then Continue(next.(prefix := OperandOverride(p, mode, s.i)))
      else if b == 0x67 then Continue(next.(prefix := AddressOverride(p, mode)))
      else if s.i == 0 && mode == Long && b in {0xc5, 0xc4, 0x62, 0x8f} then LongPrefix(buf, s, b)
      else if 0x40 <= b <= 0x4f && mode == Long then Stop(Scan(s.i + 1, RexPrefix(p, b), s.vex, true))
      else Stop(s)
  }

  /** The whole loop; None stands for an error or a panic. */
  function Prefixes(mode: Mode, buf: seq<byte>, s: Scan): Option<Scan>
    decreases 15 - s.i
  {
    if s.i >= 15 then Some(s)
    else
      match PrefixStep(mode, buf, s)
      case Continue(next) => Prefixes(mode, buf, next)
      case Stop(last) => Some(last)
      case Fail => None
  }

  /** The opcode escape bytes: where the opcode is, and in which map. */
  function EscapeAt(buf: seq<byte>, s: Scan): Option<(nat, Escape)> {
    if s.vex || At(buf, s.i) != Some(0x0f) then Some((s.i, s.prefix.escape))
    else
      match At(buf, s.i + 1)
      case None => None
      case Some(b) =>
        if b == 0x38 then Some((s.i + 2, E0F38))
        else if b == 0x3a then Some((s.i + 2, E0F3A))
        else if b == 0x0f then Some((s.i + 2, E0F0F))
        else Some((s.i + 1, E0F))
  }

  function Escaped(buf: seq<byte>, s: Scan): Option<Scan> {
    match EscapeAt(buf, s)
    case None => None
    case Some((i, escape)) => Some(s.(i := i, prefix := s.prefix.(escape := escape)))
  }

  /** Opcodes that do not take a mandatory prefix. */
  predicate NoMandatoryPrefix(b: nat, simd: Simd) {
    || b <= 0x0f || 0x18 <= b <= 0x27 || 0x30 <= b <= 0x4f || 0x80 <= b <= 0xb7
    || (0xb8 <= b <= 0xbf && simd != F3) || b == 0xc0 || b == 0xc1 || 0xc8 <= b <= 0xcf
  }

  function Cleaned(p: Prefix, b: nat): Prefix {
    var plain := p.escape == E0F && NoMandatoryPrefix(b, p.simd);
    p.(simd := if plain then NoSimd else p.simd, lock := plain && p.lock, repe := plain && p.repe,
       repne := plain && p.repne)
  }

  function Widened(p: Prefix, mode: Mode): Prefix {
    var wide := match mode case Real => 16 case Protected => 32 case Long => 64;
    p.(operandSize := if (p.escape == E0F || p.escape == E0F3A || p.escape == E0F38) && p.simd == P66 then wide
                      else p.operandSize)
  }

  // ----- Opcode selection -----

  datatype Selected<S> = Selected(scan: Scan, opcode: Opcode<S>, looked: nat)

  /** Replaces escape and group entries by the entry the next byte selects. */
  function Refine<S, O, R>(t: Tables<S, O, R>, mode: Mode, buf: seq<byte>, s: Scan, b: byte,
                           opc: Opcode<S>): Option<Selected<S>> {
    match opc.spec
    case Single(_) => Some(Selected(s, opc, s.i + 1))
    case UndefinedOpcode => None
    case EscapeOpcode =>
      (match At(buf, s.i + 1)
       case None => None
       case Some(m) =>
         if m as nat < 0xc0 then
           match t.x87Memory(b, m as nat / 8 % 8)
           case None => None
           case Some(o) => Some(Selected(s, o, s.i + 2))
         else
           match t.x87Register(b, m as nat - 0xc0)
           case None => None
           case Some(o) => Some(Selected(s.(i := s.i + 1), o, s.i + 2)))
    case Group(g) =>
      match At(buf, s.i + 1)
      case None => None
      case Some(m) =>
        match t.group(g, b, m, if s.prefix.escape != NoEscape then s.prefix.simd else NoSimd, mode, s.vex)
        case None => None
        case Some(o) => Some(Selected(s, o, s.i + 2))
  }

  function Fixed(p: Prefix, option: Only, mode: Mode): Option<Prefix> {
    match option
    case NoOption => Some(p)
    case Default64 => Some(if mode == Long && p.operandSize == 32 then p.(operandSize := 64) else p)
    case Force64 => Some(if mode == Long then p.(operandSize := 64) else p)
    case Only64 => if mode != Long then None else Some(p)
    case Invalid64 => if mode == Long then None else Some(p)
  }

  /** The table entry the opcode byte selects, and where that byte is. */
  datatype Located<S> = Located(scan: Scan, entry: Opcode<S>)

  function Locate<S, O, R>(t: Tables<S, O, R>, mode: Mode, buf: seq<byte>): (r: Option<Located<S>>)
    ensures r.Some? ==> r.value.scan.i < |buf|
  {
    match Prefixes(mode, buf, Start(mode))
    case None => None
    case Some(s0) =>
      match Escaped(buf, s0)
      case None => None
      case Some(s1) =>
        if s1.prefix.escape == E0F0F || s1.i >= |buf| then None
        else
          var b := buf[s1.i];
          var cleaned := Cleaned(s1.prefix, b as nat);
          match t.first(mode, cleaned.escape, cleaned.simd, b)
          case None => None
          case Some(entry) => Some(Located(s1.(prefix := Widened(cleaned, mode)), entry))
  }

  function Select<S, O, R>(t: Tables<S, O, R>, mode: Mode, buf: seq<byte>): Option<Selected<S>> {
    match Locate(t, mode, buf)
    case None => None
    case Some(l) =>
      match Refine(t, mode, buf, l.scan, buf[l.scan.i], l.entry)
      case None => None
      case Some(sel) =>
        match Fixed(sel.scan.prefix, sel.opcode.option, mode)
        case None => None
        case Some(p) =>
          if sel.opcode.spec.Single? then Some(sel.(scan := sel.scan.(prefix := p))) else None
  }

  // ----- Operands -----

  /** `Tail`: a cursor and the cached ModR/M and SIB bytes. */
  datatype Tail = Tail(pos: nat, modrm: Option<Modrm>, sib: Option<Sib>)

  function ReadBytes(buf: seq<byte>, tail: Tail, n: nat): Option<(seq<byte>, Tail)> {
    if tail.pos + n <= |buf| then Some((buf[tail.pos..tail.pos + n], tail.(pos := tail.pos + n))) else None
  }

  function SplitModrm(v: nat, rex: Option<Rex>): Modrm {
    var m, reg, rm := v / 64, v / 8 % 8, v % 8;
    var sib := m != 3 && rm == 4;
    Modrm(m, if rex.Some? && rex.value.r then reg + 8 else reg, if rex.Some? && rex.value.b && !sib then rm + 8 else rm)
  }

  function ReadModrm(buf: seq<byte>, tail: Tail, rex: Option<Rex>): Option<(Modrm, Tail)> {
    match tail.modrm
    case Some(m) => Some((m, tail))
    case None =>
      match At(buf, tail.pos)
      case None => None
      case Some(b) =>
        var m := SplitModrm(b as nat, rex);
        Some((m, tail.(pos := tail.pos + 1, modrm := Some(m))))
  }

  /** The SIB byte, with its own displacement if there is no base register. */
  function ReadSib<S, O, R>(t: Tables<S, O, R>, buf: seq<byte>, tail: Tail, mod_: nat, rex: Option<Rex>,
                            addrsz: nat): Option<(Sib, Tail)> {
    match tail.sib
    case Some(s) => Some((s, tail))
    case None =>
      match At(buf, tail.pos)
      case None => None
      case Some(b) =>
        var extend := mod_ != 3 && rex.Some?;
        var index := b as nat / 8 % 8 + if extend && rex.value.x then 8 else 0;
        var base := b as nat % 8 + if extend && rex.value.b then 8 else 0;
        var size := if mod_ == 0 && base % 8 == 5 then 4 else 0;
        if !(mod_ != 3 && base % 8 == 5) && !t.register(base, rex.Some?, addrsz) then None
        else if index % 8 != 4 && !t.register(index, rex.Some?, addrsz) then None
        else
          match ReadBytes(buf, tail.(pos := tail.pos + 1), size)
          case None => None
          case Some((disp, tail')) => Some((Sib(b, disp), tail'.(sib := Some(Sib(b, disp)))))
  }

  /** The size of the displacement behind ModR/M and SIB. */
  function Displacement(m: Modrm): nat {
    if m.mod_ == 0 then if m.rm % 8 == 5 then 4 else 0
    else if m.mod_ == 1 then 1
    else if m.mod_ == 2 then 4
    else 0
  }

  /** `read_effective_address` and `read_effective_simd_address`. */
  function ReadAddress<S, O, R>(t: Tables<S, O, R>, buf: seq<byte>, tail: Tail, rex: Option<Rex>,
                                addrsz: nat): Option<(Raw, Tail)> {
    match ReadModrm(buf, tail, rex)
    case None => None
    case Some((m, tail1)) =>
      var hasSib := m.mod_ != 3 && m.rm % 8 == 4;
      match (if hasSib then ReadSib(t, buf, tail1, m.mod_, rex, addrsz) else Some((Sib(0, []), tail1)))
      case None => None
      case Some((sib, tail2)) =>
        if !hasSib && (m.mod_ == 1 || m.mod_ == 2) && !t.register(m.rm, rex.Some?, addrsz) then None
        else
          match ReadBytes(buf, tail2, Displacement(m))
          case None => None
          case Some((disp, tail3)) => Some((Raw(Some(m), if hasSib then Some(sib) else None, disp, tail3.pos), tail3))
  }

  /** Immediates one after the other. */
  function ReadImmediates(buf: seq<byte>, tail: Tail, sizes: seq<nat>): Option<(seq<byte>, Tail)>
    decreases sizes
  {
    if sizes == [] then Some(([], tail))
    else
      match ReadBytes(buf, tail, sizes[0])
      case None => None
      case Some((bs, tail1)) =>
        match ReadImmediates(buf, tail1, sizes[1..])
        case None => None
        case Some((rest, tail2)) => Some((bs + rest, tail2))
  }

  function ReadRaw<S, O, R>(t: Tables<S, O, R>, buf: seq<byte>, tail: Tail, l: Layout, rex: Option<Rex>,
                            addrsz: nat): Option<(Raw, Tail)> {
    match l
    case Nothing => Some((Raw(None, None, [], tail.pos), tail))
    case Immediates(sizes) =>
      (match ReadImmediates(buf, tail, sizes)
       case None => None
       case Some((bs, tail')) => Some((Raw(None, None, bs, tail'.pos), tail')))
    case InModrm =>
      (match ReadModrm(buf, tail, rex)
       case None => None
       case Some((m, tail')) => Some((Raw(Some(m), None, [], tail'.pos), tail')))
    case Address => ReadAddress(t, buf, tail, rex, addrsz)
  }

  /** `read_operand` followed by `to_rreil`. */
  function ReadOperand<S, O, R>(t: Tables<S, O, R>, mode: Mode, buf: seq<byte>, sel: Scan, spec: S, tail: Tail,
                                ip: nat): Option<(O, Tail)> {
    var p := sel.prefix;
    var rex := RexOf(sel);
    match t.layout(spec, p.operandSize, p.addressSize, p.vvvv.Some?)
    case None => None
    case Some(l) =>
      match ReadRaw(t, buf, tail, l, rex, p.addressSize)
      case None => None
      case Some((raw, tail')) =>
        match t.operand(spec, raw, mode, p, rex, ip)
        case None => None
        case Some(o) => Some((o, tail'))
  }

  function RexOf(s: Scan): Option<Rex> {
    if s.rex then Some(Rex(s.prefix.rexW, s.prefix.rexR, s.prefix.rexX, s.prefix.rexB)) else None
  }

  function ReadOperands<S, O, R>(t: Tables<S, O, R>, mode: Mode, buf: seq<byte>, sel: Scan, specs: seq<S>,
                                 tail: Tail, ip: nat): Option<(seq<O>, Tail)>
    decreases |specs|
  {
    if specs == [] then Some(([], tail))
    else
      var n := |specs| - 1;
      match ReadOperands(t, mode, buf, sel, specs[..n], tail, ip)
      case None => None
      case Some((os, tail1)) =>
        match ReadOperand(t, mode, buf, sel, specs[n], tail1, ip)
        case None => None
        case Some((o, tail2)) => Some((os + [o], tail2))
  }

  /** `read`; None stands for an error or a panic. */
  function Decode<S, O, R>(t: Tables<S, O, R>, mode: Mode, buf: seq<byte>, addr: nat): Option<Decoded<R>> {
    match Select(t, mode, buf)
    case None => None
    case Some(sel) =>
      var i := sel.scan.i;
      match ReadOperands(t, mode, buf, sel.scan, sel.opcode.operands, Tail(i + 1, None, None), addr + i + 1)
      case None => None
      case Some((ops, tail)) =>
        match t.semantics(sel.opcode, ops, tail.pos)
        case None => None
        case Some(r) => Some(Decoded(tail.pos, r, if sel.looked > tail.pos then sel.looked else tail.pos))
  }

  // ----- The decoder depends only on the bytes it looks at -----

  /** The buffers have the first `n` bytes in common. */
  ghost predicate Agree(buf: seq<byte>, buf': seq<byte>, n: nat) {
    n <= |buf| && n <= |buf'| && forall i :: 0 <= i < n ==> buf'[i] == buf[i]
  }

  lemma {:induction false} PrefixesLocal(mode: Mode, buf: seq<byte>, buf': seq<byte>, s: Scan, n: nat)
    requires Agree(buf, buf', n) && Prefixes(mode, buf, s).Some?
    ensures Prefixes(mode, buf, s).value.i >= s.i
    ensures Prefixes(mode, buf, s).value.i < n ==> Prefixes(mode, buf', s) == Prefixes(mode, buf, s)
    decreases 15 - s.i
  {
    if s.i < 15 {
      var step := PrefixStep(mode, buf, s);
      if step.Continue? { PrefixesLocal(mode, buf, buf', step.next, n); }
      if Prefixes(mode, buf, s).value.i < n { StepLocal(mode, buf, buf', s, n); }
    }
  }

  lemma StepLocal(mode: Mode, buf: seq<byte>, buf': seq<byte>, s: Scan, n: nat)
    requires Agree(buf, buf', n) && s.i < n && PrefixStep(mode, buf, s) != Fail
    requires PrefixStep(mode, buf, s).Stop? ==> PrefixStep(mode, buf, s).last.i < n
    ensures PrefixStep(mode, buf', s) == PrefixStep(mode, buf, s)
  {
    hide Group1, Group2, OperandOverride, AddressOverride, RexPrefix, BitSet, Vex2, Vex3, Evex, SimdOf, MapEscape,
      XopEscape;
  }

  lemma EscapedLocal(buf: seq<byte>, buf': seq<byte>, s: Scan, n: nat)
    requires Agree(buf, buf', n) && Escaped(buf, s).Some? && Escaped(buf, s).value.i < n
    ensures Escaped(buf', s) == Escaped(buf, s) && s.i <= Escaped(buf, s).value.i
  {
  }

  lemma RefineLocal<S, O, R>(t: Tables<S, O, R>, mode: Mode, buf: seq<byte>, buf': seq<byte>, s: Scan, b: byte,
                             opc: Opcode<S>, n: nat)
    requires Agree(buf, buf', n) && Refine(t, mode, buf, s, b, opc).Some? && s.i < |buf|
    ensures var sel := Refine(t, mode, buf, s, b, opc).value;
            && s.i <= sel.scan.i < sel.looked <= |buf| && sel.looked <= sel.scan.i + 2
            && (sel.looked <= n ==> Refine(t, mode, buf', s, b, opc) == Some(sel))
  {
  }

  lemma LocateLocal<S, O, R>(t: Tables<S, O, R>, mode: Mode, buf: seq<byte>, buf': seq<byte>, n: nat)
    requires Agree(buf, buf', n) && Locate(t, mode, buf).Some? && Locate(t, mode, buf).value.scan.i < n
    ensures Locate(t, mode, buf') == Locate(t, mode, buf)
  {
    hide Prefixes, Escaped, Cleaned, Widened, Start;
    var s0 := Prefixes(mode, buf, Start(mode)).value;
    EscapedLocal(buf, buf', s0, n);
    PrefixesLocal(mode, buf, buf', Start(mode), n);
  }

  lemma SelectLocal<S, O, R>(t: Tables<S, O, R>, mode: Mode, buf: seq<byte>, buf': seq<byte>, n: nat)
    requires Agree(buf, buf', n) && Select(t, mode, buf).Some?
    ensures var sel := Select(t, mode, buf).value;
            && sel.scan.i < sel.looked <= |buf| && sel.looked <= sel.scan.i + 2
            && (sel.looked <= n ==> Select(t, mode, buf') == Some(sel))
  {
    hide Locate, Refine, Fixed;
    var l := Locate(t, mode, buf).value;
    RefineLocal(t, mode, buf, buf', l.scan, buf[l.scan.i], l.entry, n);
    if Select(t, mode, buf).value.looked <= n { LocateLocal(t, mode, buf, buf', n); }
  }

  /** A step of the tail that only moves forward, within the buffer. */
  ghost predicate Advances(buf: seq<byte>, tail: Tail, tail': Tail) {
    tail.pos <= tail'.pos && (tail.pos <= |buf| ==> tail'.pos <= |buf|)
  }

  lemma BytesLocal(buf: seq<byte>, buf': seq<byte>, tail: Tail, k: nat, n: nat)
    requires Agree(buf, buf', n) && ReadBytes(buf, tail, k).Some?
    ensures var r := ReadBytes(buf, tail, k).value;
            && r.1 == tail.(pos := tail.pos + k) && r.1.pos <= |buf|
            && (r.1.pos <= n ==> ReadBytes(buf', tail, k) == Some(r))
  {
    if tail.pos + k <= n { assert buf'[tail.pos..tail.pos + k] == buf[tail.pos..tail.pos + k]; }
  }

  lemma AddressLocal<S, O, R>(t: Tables<S, O, R>, buf: seq<byte>, buf': seq<byte>, tail: Tail, rex: Option<Rex>,
                              addrsz: nat, n: nat)
    requires Agree(buf, buf', n) && ReadAddress(t, buf, tail, rex, addrsz).Some?
    ensures var r := ReadAddress(t, buf, tail, rex, addrsz).value;
            Advances(buf, tail, r.1) && (r.1.pos <= n ==> ReadAddress(t, buf', tail, rex, addrsz) == Some(r))
  {
    hide SplitModrm, ReadBytes, ReadSib;
    var (m, tail1) := ReadModrm(buf, tail, rex).value;
    var hasSib := m.mod_ != 3 && m.rm % 8 == 4;
    if hasSib { SibLocal(t, buf, buf', tail1, m.mod_, rex, addrsz, n); }
    var tail2 := if hasSib then ReadSib(t, buf, tail1, m.mod_, rex, addrsz).value.1 else tail1;
    BytesLocal(buf, buf', tail2, Displacement(m), n);
  }

  lemma SibLocal<S, O, R>(t: Tables<S, O, R>, buf: seq<byte>, buf': seq<byte>, tail: Tail, mod_: nat,
                          rex: Option<Rex>, addrsz: nat, n: nat)
    requires Agree(buf, buf', n) && ReadSib(t, buf, tail, mod_, rex, addrsz).Some?
    ensures var r := ReadSib(t, buf, tail, mod_, rex, addrsz).value;
            Advances(buf, tail, r.1) && (r.1.pos <= n ==> ReadSib(t, buf', tail, mod_, rex, addrsz) == Some(r))
  {
    hide ReadBytes;
    if tail.sib.None? {
      var base := buf[tail.pos] as nat % 8 + if mod_ != 3 && rex.Some? && rex.value.b then 8 else 0;
      BytesLocal(buf, buf', tail.(pos := tail.pos + 1), if mod_ == 0 && base % 8 == 5 then 4 else 0, n);
    }
  }

  lemma {:induction false} ImmediatesLocal(buf: seq<byte>, buf': seq<byte>, tail: Tail, sizes: seq<nat>, n: nat)
    requires Agree(buf, buf', n) && ReadImmediates(buf, tail, sizes).Some?
    ensures var r := ReadImmediates(buf, tail, sizes).value;
            Advances(buf, tail, r.1) && (r.1.pos <= n ==> ReadImmediates(buf', tail, sizes) == Some(r))
    decreases sizes
  {
    hide ReadBytes;
    if sizes != [] {
      BytesLocal(buf, buf', tail, sizes[0], n);
      ImmediatesLocal(buf, buf', ReadBytes(buf, tail, sizes[0]).value.1, sizes[1..], n);
    }
  }

  lemma OperandLocal<S, O, R>(t: Tables<S, O, R>, mode: Mode, buf: seq<byte>, buf': seq<byte>, sel: Scan, spec: S,
                              tail: Tail, ip: nat, n: nat)
    requires Agree(buf, buf', n) && ReadOperand(t, mode, buf, sel, spec, tail, ip).Some?
    ensures var r := ReadOperand(t, mode, buf, sel, spec, tail, ip).value;
            Advances(buf, tail, r.1) && (r.1.pos <= n ==> ReadOperand(t, mode, buf', sel, spec, tail, ip) == Some(r))
  {
    hide ReadAddress, ReadImmediates;
    var p, rex := sel.prefix, RexOf(sel);
    match t.layout(spec, p.operandSize, p.addressSize, p.vvvv.Some?).value {
      case Nothing =>
      case Immediates(sizes) => ImmediatesLocal(buf, buf', tail, sizes, n);
      case InModrm =>
      case Address => AddressLocal(t, buf, buf', tail, rex, p.addressSize, n);
    }
  }

  lemma {:induction false} OperandsLocal<S, O, R>(t: Tables<S, O, R>, mode: Mode, buf: seq<byte>, buf': seq<byte>,
                                                  sel: Scan, specs: seq<S>, tail: Tail, ip: nat, n: nat)
    requires Agree(buf, buf', n) && ReadOperands(t, mode, buf, sel, specs, tail, ip).Some?
    ensures var r := ReadOperands(t, mode, buf, sel, specs, tail, ip).value;
            Advances(buf, tail, r.1) && (r.1.pos <= n ==> ReadOperands(t, mode, buf', sel, specs, tail, ip) == Some(r))
    decreases |specs|
  {
    hide ReadOperand;
    if specs != [] {
      var k := |specs| - 1;
      var (os, tail1) := ReadOperands(t, mode, buf, sel, specs[..k], tail, ip).value;
      OperandsLocal(t, mode, buf, buf', sel, specs[..k], tail, ip, n);
      OperandLocal(t, mode, buf, buf', sel, specs[k], tail1, ip, n);
    }
  }

  /** Any buffer with the same first `looked` bytes decodes to the same instruction. */
  lemma DecodeLocal<S, O, R>(t: Tables<S, O, R>, mode: Mode, buf: seq<byte>, buf': seq<byte>, addr: nat, n: nat)
    requires Agree(buf, buf', n) && Decode(t, mode, buf, addr).Some?
    ensures var d := Decode(t, mode, buf, addr).value;
            && 1 <= d.len <= d.looked <= |buf| && d.looked <= d.len + 1
            && (d.looked <= n ==> Decode(t, mode, buf', addr) == Some(d))
  {
    hide Select, ReadOperands;
    SelectLocal(t, mode, buf, buf', n);
    var sel := Select(t, mode, buf).value;
    var i := sel.scan.i;
    OperandsLocal(t, mode, buf, buf', sel.scan, sel.opcode.operands, Tail(i + 1, None, None), addr + i + 1, n);
  }

  /** A successful decode consumes at least one and at most all bytes, and appending bytes changes nothing. */
  lemma DecodeStable<S, O, R>(t: Tables<S, O, R>, mode: Mode, buf: seq<byte>, more: seq<byte>, addr: nat)
    requires Decode(t, mode, buf, addr).Some?
    ensures Decode(t, mode, buf + more, addr) == Decode(t, mode, buf, addr)
    ensures 1 <= Decode(t, mode, buf, addr).value.len <= |buf|
  {
    hide Decode;
    DecodeLocal(t, mode, buf, buf + more, addr, |buf|);
  }

  /** The instruction decodes from a shorter buffer exactly if that has all bytes the decoder looked at. */
  lemma DecodeNeeds<S, O, R>(t: Tables<S, O, R>, mode: Mode, buf: seq<byte>, addr: nat, k: nat)
    requires Decode(t, mode, buf, addr).Some? && k <= |buf|
    ensures Decode(t, mode, buf[..k], addr) == Decode(t, mode, buf, addr) <==>
            k >= Decode(t, mode, buf, addr).value.looked
    ensures k < Decode(t, mode, buf, addr).value.looked ==> Decode(t, mode, buf[..k], addr) == None
  {
    hide Decode;
    var d := Decode(t, mode, buf, addr).value;
    DecodeLocal(t, mode, buf, buf[..k], addr, k);
    if Decode(t, mode, buf[..k], addr).Some? {
      DecodeLocal(t, mode, buf[..k], buf, addr, k);
    }
  }

  // ----- When a byte is looked at but not consumed -----

  function Total(sizes: seq<nat>): nat {
    if sizes == [] then 0 else sizes[0] + Total(sizes[1..])
  }

  /** The layout has no byte of its own. */
  predicate TakesNothing(l: Layout) {
    l.Nothing? || (l.Immediates? && Total(l.sizes) == 0)
  }

  /** No operand of the opcode takes a byte. */
  ghost predicate Silent<S, O, R>(t: Tables<S, O, R>, p: Prefix, specs: seq<S>) {
    forall spec :: spec in specs ==>
      var l := t.layout(spec, p.operandSize, p.addressSize, p.vvvv.Some?);
      l.Some? && TakesNothing(l.value)
  }

  lemma {:induction false} ImmediatesTotal(buf: seq<byte>, tail: Tail, sizes: seq<nat>)
    requires ReadImmediates(buf, tail, sizes).Some?
    ensures ReadImmediates(buf, tail, sizes).value.1 == tail.(pos := tail.pos + Total(sizes))
    decreases sizes
  {
    if sizes != [] { ImmediatesTotal(buf, ReadBytes(buf, tail, sizes[0]).value.1, sizes[1..]); }
  }

  /** An operand without bytes leaves the tail alone; the first one with bytes advances it. */
  lemma OperandTakes<S, O, R>(t: Tables<S, O, R>, mode: Mode, buf: seq<byte>, sel: Scan, spec: S, tail: Tail, ip: nat)
    requires ReadOperand(t, mode, buf, sel, spec, tail, ip).Some?
    ensures var p, tail' := sel.prefix, ReadOperand(t, mode, buf, sel, spec, tail, ip).value.1;
            var l := t.layout(spec, p.operandSize, p.addressSize, p.vvvv.Some?);
            && l.Some? && tail.pos <= tail'.pos
            && (TakesNothing(l.value) ==> tail' == tail)
            && (!TakesNothing(l.value) && tail.modrm.None? ==> tail'.pos > tail.pos)
  {
    hide ReadAddress, ReadImmediates, Total;
    var p, rex := sel.prefix, RexOf(sel);
    match t.layout(spec, p.operandSize, p.addressSize, p.vvvv.Some?).value {
      case Nothing =>
      case Immediates(sizes) => ImmediatesTotal(buf, tail, sizes);
      case InModrm =>
      case Address => AddressTakes(t, buf, tail, rex, p.addressSize);
    }
  }

  lemma AddressTakes<S, O, R>(t: Tables<S, O, R>, buf: seq<byte>, tail: Tail, rex: Option<Rex>, addrsz: nat)
    requires ReadAddress(t, buf, tail, rex, addrsz).Some?
    ensures var tail' := ReadAddress(t, buf, tail, rex, addrsz).value.1;
            tail.pos <= tail'.pos && (tail.modrm.None? ==> tail.pos < tail'.pos)
  {
    hide SplitModrm, ReadBytes, ReadSib;
    var (m, tail1) := ReadModrm(buf, tail, rex).value;
    var hasSib := m.mod_ != 3 && m.rm % 8 == 4;
    if hasSib { SibLocal(t, buf, buf, tail1, m.mod_, rex, addrsz, 0); }
    var tail2 := if hasSib then ReadSib(t, buf, tail1, m.mod_, rex, addrsz).value.1 else tail1;
    BytesLocal(buf, buf, tail2, Displacement(m), 0);
  }

  /** The operands consume nothing exactly if none of them takes a byte. */
  lemma {:induction false} OperandsTake<S, O, R>(t: Tables<S, O, R>, mode: Mode, buf: seq<byte>, sel: Scan,
                                                 specs: seq<S>, tail: Tail, ip: nat)
    requires ReadOperands(t, mode, buf, sel, specs, tail, ip).Some? && tail.modrm.None?
    ensures var tail' := ReadOperands(t, mode, buf, sel, specs, tail, ip).value.1;
            if Silent(t, sel.prefix, specs) then tail' == tail else tail'.pos > tail.pos
    decreases |specs|
  {
    hide ReadOperand;
    if specs != [] {
      var k := |specs| - 1;
      var (os, tail1) := ReadOperands(t, mode, buf, sel, specs[..k], tail, ip).value;
      OperandsTake(t, mode, buf, sel, specs[..k], tail, ip);
      OperandTakes(t, mode, buf, sel, specs[k], tail1, ip);
      assert specs == specs[..k] + [specs[k]];
    }
  }

  /** The entry is replaced according to a ModR/M byte that stays an operand byte: a group, or an x87 opcode
    in its memory form. */
  predicate ModrmSelects<S>(buf: seq<byte>, l: Located<S>) {
    l.entry.spec.Group? || (l.entry.spec.EscapeOpcode? && l.scan.i + 1 < |buf| && buf[l.scan.i + 1] as nat < 0xc0)
  }

  /** The tables lose the ModR/M byte: it selects an opcode none of whose operands takes a byte. */
  ghost predicate LosesModrm<S, O, R>(t: Tables<S, O, R>, mode: Mode, buf: seq<byte>) {
    && Locate(t, mode, buf).Some? && ModrmSelects(buf, Locate(t, mode, buf).value)
    && Select(t, mode, buf).Some?
    && var sel := Select(t, mode, buf).value; Silent(t, sel.scan.prefix, sel.opcode.operands)
  }

  lemma LookedIs<S, O, R>(t: Tables<S, O, R>, mode: Mode, buf: seq<byte>)
    requires Select(t, mode, buf).Some?
    ensures Locate(t, mode, buf).Some?
    ensures var sel := Select(t, mode, buf).value;
            sel.looked == if ModrmSelects(buf, Locate(t, mode, buf).value) then sel.scan.i + 2 else sel.scan.i + 1
  {
    hide Locate, Fixed;
  }

  /** The decoder looks one byte further than it consumes exactly if the tables lose the ModR/M byte. */
  lemma LooksAheadIff<S, O, R>(t: Tables<S, O, R>, mode: Mode, buf: seq<byte>, addr: nat)
    requires Decode(t, mode, buf, addr).Some?
    ensures var d := Decode(t, mode, buf, addr).value; d.looked != d.len <==> LosesModrm(t, mode, buf)
  {
    hide Select, Locate, ReadOperands, Silent, ModrmSelects;
    DecodeLocal(t, mode, buf, buf, addr, 0);
    LookedIs(t, mode, buf);
    var sel := Select(t, mode, buf).value;
    var i := sel.scan.i;
    OperandsTake(t, mode, buf, sel.scan, sel.opcode.operands, Tail(i + 1, None, None), addr + i + 1);
  }

  /** The consumed bytes alone decode to the same instruction, unless the tables lose the ModR/M byte. */
  lemma ConsumedBytesSuffice<S, O, R>(t: Tables<S, O, R>, mode: Mode, buf: seq<byte>, addr: nat)
    requires Decode(t, mode, buf, addr).Some?
    ensures var d := Decode(t, mode, buf, addr).value;
            && d.len <= |buf|
            && (Decode(t, mode, buf[..d.len], addr) == Some(d) <==> !LosesModrm(t, mode, buf))
  {
    hide Select, Decode, LosesModrm;
    var d := Decode(t, mode, buf, addr).value;
    DecodeLocal(t, mode, buf, buf, addr, 0);
    DecodeNeeds(t, mode, buf, addr, d.len);
    LooksAheadIff(t, mode, buf, addr);
  }

  /** With group 7 as in the tables, the three bytes of VMCALL decode to a two-byte instruction, and those
    two bytes do not decode. */
  lemma VmcallLosesModrm<S, O, R>(t: Tables<S, O, R>, addr: nat, vmcall: Opcode<S>)
    requires t.first(Long, E0F, NoSimd, 0x01) == Some(Opcode(Group(7), NoOption, []))
    requires t.group(7, 0x01, 0xc1, NoSimd, Long, false) == Some(vmcall)
    requires vmcall == Opcode(Single("vmcall"), NoOption, [])
    requires t.semantics(vmcall, [], 2).Some?
    ensures var d := Decode(t, Long, [0x0f, 0x01, 0xc1], addr);
            d.Some? && d.value.len == 2 && Decode(t, Long, [0x0f, 0x01], addr) == None
  {
    var buf: seq<byte> := [0x0f, 0x01, 0xc1];
    var s := Start(Long);
    assert PrefixStep(Long, buf, s) == Stop(s);
    assert Prefixes(Long, buf, s) == Some(s);
    assert Escaped(buf, s) == Some(s.(i := 1, prefix := s.prefix.(escape := E0F)));
    assert Select(t, Long, buf).Some?;
    assert Select(t, Long, buf).value.scan.i == 1 && Select(t, Long, buf).value.looked == 3;
    assert Decode(t, Long, buf, addr).Some? && Decode(t, Long, buf, addr).value.len == 2;
    DecodeNeeds(t, Long, buf, addr, 2);
    assert buf[..2] == [0x0f, 0x01];
  }

  // ----- The code -----

  lemma {:induction false} FailedOperand<S, O, R>(t: Tables<S, O, R>, mode: Mode, buf: seq<byte>, sel: Scan,
                                                  specs: seq<S>, tail: Tail, ip: nat, k: nat)
    requires k <= |specs| && ReadOperands(t, mode, buf, sel, specs[..k], tail, ip) == None
    ensures ReadOperands(t, mode, buf, sel, specs, tail, ip) == None
    decreases |specs|
  {
    if k < |specs| {
      var n := |specs| - 1;
      assert specs[..n][..k] == specs[..k];
      FailedOperand(t, mode, buf, sel, specs[..n], tail, ip, k);
    } else {
      assert specs[..k] == specs;
    }
  }

  /** The prefix loop. */
  method ScanPrefixes(mode: Mode, buf: seq<byte>) returns (r: Option<Scan>)
    ensures r == Prefixes(mode, buf, Start(mode))
  {
    var s := Start(mode);
    while s.i < 15
      invariant Prefixes(mode, buf, s) == Prefixes(mode, buf, Start(mode))
      decreases 15 - s.i
    {
      match PrefixStep(mode, buf, s) {
        case Continue(next) => s := next;
        case Stop(last) => return Some(last);
        case Fail => return None;
      }
    }
    return Some(s);
  }

  /** The operand loop. */
  method ScanOperands<S, O, R>(t: Tables<S, O, R>, mode: Mode, buf: seq<byte>, sel: Scan, specs: seq<S>,
                               start: Tail, ip: nat)
    returns (r: Option<(seq<O>, Tail)>)
    ensures r == ReadOperands(t, mode, buf, sel, specs, start, ip)
  {
    var ops, tail, k := [], start, 0;
    while k < |specs|
      invariant 0 <= k <= |specs| && ReadOperands(t, mode, buf, sel, specs[..k], start, ip) == Some((ops, tail))
    {
      var next := ReadOperand(t, mode, buf, sel, specs[k], tail, ip);
      assert specs[..k + 1][..k] == specs[..k];
      if next.None? {
        FailedOperand(t, mode, buf, sel, specs, start, ip, k + 1);
        return None;
      }
      ops, tail, k := ops + [next.value.0], next.value.1, k + 1;
    }
    assert specs[..k] == specs;
    return Some((ops, tail));
  }
}
